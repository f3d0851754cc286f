/**
 * The recommendation query: the movies whose genre list mentions the chosen
 * genre (case ignored), joined to their ratings on movieId, grouped by title
 * into mean and count, titles with fewer than ten ratings dropped, the rest
 * ranked by mean from high to low and the first five kept.
 */
module Recommend {
  import opened Text
  import opened Tables
  import opened Genres

  /** Titles with fewer ratings than this are not recommended. */
  const MinRatings: nat := 10

  /** How many titles a recommendation holds at most. */
  const TopCount: nat := 5

  /* ================= Step 1: movies of the genre ================= */

  /** The movie's genre list mentions `genre`, ignoring case. */
  predicate InGenre(m: Movie, genre: string): (matches: bool)
    ensures matches <==> exists i :: OccursAt(Lower(m.genres), Lower(genre), i)
    ensures Contains(m.genres, genre) ==> matches
  {
    ContainsThenContainsIgnoreCase(m.genres, genre);
    ContainsIgnoreCase(m.genres, genre)
  }

  /** The movies table restricted to the rows that mention `genre`. */
  function MoviesInGenre(movies: seq<Movie>, genre: string): (r: seq<Movie>)
    ensures forall m :: m in r <==> m in movies && InGenre(m, genre)
    ensures |r| <= |movies|
    decreases |movies|
  {
    if movies == [] then []
    else (if InGenre(movies[0], genre) then [movies[0]] else []) + MoviesInGenre(movies[1..], genre)
  }

  /* ================= Step 2: inner join on movieId ================= */

  /** One row of the joined table, reduced to the two columns the query reads. */
  datatype Row = Row(title: string, rating: real)

  /** The joined rows contributed by one movie: one per rating of its movieId. */
  function MergeOne(m: Movie, ratings: seq<Rating>): (rows: seq<Row>)
    ensures forall row :: row in rows <==>
      exists x :: x in ratings && x.movieId == m.movieId && row == Row(m.title, x.rating)
    decreases |ratings|
  {
    if ratings == [] then []
    else
      (if ratings[0].movieId == m.movieId then [Row(m.title, ratings[0].rating)] else [])
      + MergeOne(m, ratings[1..])
  }

  /** The inner join: a row for every pair of a movie and a rating with the
      same movieId, in the order of the movies table. */
  function Merge(movies: seq<Movie>, ratings: seq<Rating>): (rows: seq<Row>)
    ensures forall row :: row in rows <==>
      exists m, x :: m in movies && x in ratings && m.movieId == x.movieId && row == Row(m.title, x.rating)
    decreases |movies|
  {
    if movies == [] then []
    else MergeOne(movies[0], ratings) + Merge(movies[1..], ratings)
  }

  /* ================= Step 3: group by title ================= */

  /** The rating column of the group whose key is `t`. */
  function GroupRatings(rows: seq<Row>, t: string): (r: seq<real>)
    ensures |r| <= |rows|
    ensures forall x {:trigger multiset(r)[x]} :: multiset(r)[x] == multiset(rows)[Row(t, x)]
    decreases |rows|
  {
    if rows == [] then []
    else
      assert rows == [rows[0]] + rows[1..];
      (if rows[0].title == t then [rows[0].rating] else []) + GroupRatings(rows[1..], t)
  }

  /** The group keys: every title of the joined rows, once each. */
  function Titles(rows: seq<Row>): (ts: seq<string>)
    ensures forall t :: t in ts <==> HasRowTitled(rows, t)
    ensures forall i, j :: 0 <= i < j < |ts| ==> ts[i] != ts[j]
    decreases |rows|
  {
    if rows == [] then []
    else
      var rest := Titles(rows[1..]);
      if rows[0].title in rest then rest else [rows[0].title] + rest
  }

  function Sum(xs: seq<real>): real
    decreases |xs|
  {
    if xs == [] then 0.0 else xs[0] + Sum(xs[1..])
  }

  /** The arithmetic mean; a group is never empty, so the zero case is not reached. */
  function Mean(xs: seq<real>): (mean: real)
    ensures xs != [] ==> mean * (|xs| as real) == Sum(xs)
  {
    if xs == [] then 0.0 else Sum(xs) / (|xs| as real)
  }

  /** A sum of terms that all lie in [lo, hi] lies between n * lo and n * hi. */
  lemma {:induction false} SumBetween(xs: seq<real>, lo: real, hi: real)
    requires forall i :: 0 <= i < |xs| ==> lo <= xs[i] <= hi
    ensures (|xs| as real) * lo <= Sum(xs) <= (|xs| as real) * hi
    decreases |xs|
  {
    if xs != [] {
      SumBetween(xs[1..], lo, hi);
      var n := |xs[1..]| as real;
      assert (|xs| as real) * lo == n * lo + lo;
      assert (|xs| as real) * hi == n * hi + hi;
    }
  }

  /** The mean of a non-empty group lies between its least and greatest
      possible rating. */
  lemma MeanBetween(xs: seq<real>, lo: real, hi: real)
    requires xs != []
    requires forall i :: 0 <= i < |xs| ==> lo <= xs[i] <= hi
    ensures lo <= Mean(xs) <= hi
  {
    SumBetween(xs, lo, hi);
    var n, m := |xs| as real, Mean(xs);
    assert m * n == Sum(xs);
    assert (m - lo) * n >= 0.0;
    assert (hi - m) * n >= 0.0;
  }

  /** The aggregate row of the group `t`: its mean and its count. */
  function StatOf(rows: seq<Row>, t: string): (s: MovieStat)
    ensures s.title == t
    ensures s.ratingCount >= 1 <==> HasRowTitled(rows, t)
  {
    var g := GroupRatings(rows, t);
    GroupNonEmptyIff(rows, t);
    MovieStat(t, Mean(g), |g|)
  }

  /** Some joined row carries title `t`. */
  predicate HasRowTitled(rows: seq<Row>, t: string)
  {
    exists row :: row in rows && row.title == t
  }

  /** A title's group is non-empty exactly when some joined row carries the title. */
  lemma {:induction false} GroupNonEmptyIff(rows: seq<Row>, t: string)
    ensures GroupRatings(rows, t) != [] <==> HasRowTitled(rows, t)
    decreases |rows|
  {
    if rows != [] {
      GroupNonEmptyIff(rows[1..], t);
      assert rows[0] in rows;
      if HasRowTitled(rows, t) && rows[0].title != t {
        var row :| row in rows && row.title == t;
        assert row in rows[1..];
      }
      if HasRowTitled(rows[1..], t) {
        var row :| row in rows[1..] && row.title == t;
        assert row in rows;
      }
    }
  }

  /** Some statistics row carries title `t`. */
  predicate HasTitle(stats: seq<MovieStat>, t: string)
  {
    exists s :: s in stats && s.title == t
  }

  /** No title occurs twice. */
  predicate DistinctTitles(stats: seq<MovieStat>)
  {
    forall i, j :: 0 <= i < j < |stats| ==> stats[i].title != stats[j].title
  }

  /** groupby('title') with mean and count: one row per title of the joined
      table, holding the mean and number of that title's ratings. */
  function Aggregate(rows: seq<Row>): (stats: seq<MovieStat>)
    ensures forall s :: s in stats ==> s == StatOf(rows, s.title) && s.ratingCount >= 1
    ensures forall t :: HasTitle(stats, t) <==> HasRowTitled(rows, t)
    ensures DistinctTitles(stats)
  {
    var ts := Titles(rows);
    var stats := seq(|ts|, i requires 0 <= i < |ts| => StatOf(rows, ts[i]));
    assert forall i :: 0 <= i < |ts| ==> stats[i].title == ts[i] && GroupRatings(rows, ts[i]) != [] by {
      forall i | 0 <= i < |ts| ensures stats[i].title == ts[i] && GroupRatings(rows, ts[i]) != [] {
        assert ts[i] in ts;
        GroupNonEmptyIff(rows, ts[i]);
      }
    }
    assert forall t :: t in ts ==> HasTitle(stats, t) by {
      forall t | t in ts ensures HasTitle(stats, t) {
        var i :| 0 <= i < |ts| && ts[i] == t;
        assert stats[i] in stats;
      }
    }
    stats
  }

  /** The statistics of every title of the genre, before the threshold. */
  function GenreStats(genre: string, movies: seq<Movie>, ratings: seq<Rating>): seq<MovieStat>
  {
    Aggregate(Merge(MoviesInGenre(movies, genre), ratings))
  }

  /* ================= Step 4: popularity threshold ================= */

  /** The statistics rows with at least MinRatings ratings, in the same order. */
  function Popular(stats: seq<MovieStat>): (r: seq<MovieStat>)
    ensures forall s :: s in r <==> s in stats && s.ratingCount >= MinRatings
    decreases |stats|
  {
    if stats == [] then []
    else
      var rest := Popular(stats[1..]);
      if stats[0].ratingCount >= MinRatings then [stats[0]] + rest else rest
  }

  /** The threshold keeps titles distinct. */
  lemma {:induction false} PopularKeepsTitlesDistinct(stats: seq<MovieStat>)
    requires DistinctTitles(stats)
    ensures DistinctTitles(Popular(stats))
    decreases |stats|
  {
    if stats != [] {
      DistinctTail(stats);
      PopularKeepsTitlesDistinct(stats[1..]);
      if stats[0].ratingCount >= MinRatings {
        DistinctCons(stats[0], Popular(stats[1..]));
      }
    }
  }

  /* ================= Step 5: rank by mean, high to low ================= */

  predicate NonIncreasing(stats: seq<MovieStat>)
  {
    forall i, j :: 0 <= i < j < |stats| ==> stats[i].avgRating >= stats[j].avgRating
  }

  /** Put `x` into a ranking in front of the first row whose mean is not above its own. */
  function Insert(x: MovieStat, ranked: seq<MovieStat>): (r: seq<MovieStat>)
    ensures |r| == |ranked| + 1
    decreases |ranked|
  {
    if ranked == [] || ranked[0].avgRating <= x.avgRating then [x] + ranked
    else [ranked[0]] + Insert(x, ranked[1..])
  }

  /** Inserting adds exactly the one row. */
  lemma {:induction false} InsertAddsOne(x: MovieStat, ranked: seq<MovieStat>)
    ensures multiset(Insert(x, ranked)) == multiset(ranked) + multiset{x}
    decreases |ranked|
  {
    if !(ranked == [] || ranked[0].avgRating <= x.avgRating) {
      InsertAddsOne(x, ranked[1..]);
      assert ranked == [ranked[0]] + ranked[1..];
    }
  }

  /** Inserting into a ranking gives a ranking. */
  lemma {:induction false} InsertKeepsRanked(x: MovieStat, ranked: seq<MovieStat>)
    requires NonIncreasing(ranked)
    ensures NonIncreasing(Insert(x, ranked))
    ensures Insert(x, ranked)[0] == x || Insert(x, ranked)[0] == ranked[0]
    decreases |ranked|
  {
    var r := Insert(x, ranked);
    if ranked == [] || ranked[0].avgRating <= x.avgRating {
      assert r == [x] + ranked;
      forall i, j | 0 <= i < j < |r| ensures r[i].avgRating >= r[j].avgRating {
        assert r[j] == ranked[j - 1];
        if i > 0 {
          assert r[i] == ranked[i - 1];
        }
      }
    } else {
      var head, tail := ranked[0], ranked[1..];
      assert NonIncreasing(tail) by {
        assert forall i :: 0 <= i < |tail| ==> tail[i] == ranked[i + 1];
      }
      InsertKeepsRanked(x, tail);
      var rest := Insert(x, tail);
      assert r == [head] + rest;
      assert rest[0].avgRating <= head.avgRating;
      forall i, j | 0 <= i < j < |r| ensures r[i].avgRating >= r[j].avgRating {
        assert r[j] == rest[j - 1];
        if i > 0 {
          assert r[i] == rest[i - 1];
        }
      }
    }
  }

  /** sort_values(by='avg_rating', ascending=False): insertion sort by mean,
      high to low. The result is ranked and holds the same rows as the input. */
  function SortByAvgDesc(stats: seq<MovieStat>): (r: seq<MovieStat>)
    ensures NonIncreasing(r)
    ensures multiset(r) == multiset(stats)
    decreases |stats|
  {
    if stats == [] then []
    else
      var rest := SortByAvgDesc(stats[1..]);
      InsertFirst(stats, rest);
      Insert(stats[0], rest)
  }

  /** Inserting the first row into a ranking of the others ranks them all. */
  lemma InsertFirst(stats: seq<MovieStat>, rest: seq<MovieStat>)
    requires stats != [] && NonIncreasing(rest) && multiset(rest) == multiset(stats[1..])
    ensures NonIncreasing(Insert(stats[0], rest))
    ensures multiset(Insert(stats[0], rest)) == multiset(stats)
  {
    InsertKeepsRanked(stats[0], rest);
    InsertAddsOne(stats[0], rest);
    assert stats == [stats[0]] + stats[1..];
  }

  /** The genre's popular titles, ranked by mean from high to low. */
  function Ranked(genre: string, movies: seq<Movie>, ratings: seq<Rating>): (ranked: seq<MovieStat>)
    ensures NonIncreasing(ranked)
    ensures forall s :: s in ranked <==> s in GenreStats(genre, movies, ratings) && s.ratingCount >= MinRatings
  {
    var popular := Popular(GenreStats(genre, movies, ratings));
    var ranked := SortByAvgDesc(popular);
    assert forall s :: s in ranked <==> s in multiset(popular);
    ranked
  }

  /* ================= Step 6: the first five ================= */

  /** head(n): the first `n` rows, or all of them when there are fewer. */
  function Take(stats: seq<MovieStat>, n: nat): (r: seq<MovieStat>)
    ensures |r| == if |stats| < n then |stats| else n
    ensures r <= stats
  {
    if |stats| < n then stats else stats[..n]
  }

  lemma TakeKeepsEarly(stats: seq<MovieStat>, n: nat, i: nat)
    ensures i < n && i < |stats| ==> stats[i] in Take(stats, n)
  {
    if i < n && i < |stats| {
      assert Take(stats, n)[i] == stats[i];
    }
  }

  /** recommend_movies: the top TopCount titles of `genre` by mean rating
      among those with at least MinRatings ratings. */
  function TopMovies(genre: string, movies: seq<Movie>, ratings: seq<Rating>): (top: seq<MovieStat>)
    ensures |top| <= TopCount
    ensures forall s :: s in top ==> s.ratingCount >= MinRatings
    ensures NonIncreasing(top)
  {
    var ranked := Ranked(genre, movies, ratings);
    var top := Take(ranked, TopCount);
    assert forall i :: 0 <= i < |top| ==> top[i] == ranked[i];
    top
  }

  /* ================= Reference definition ================= */

  /** Movie row `m` is one of the genre's rows titled `t` with movieId `id`. */
  predicate Listed(m: Movie, genre: string, t: string, id: int)
  {
    InGenre(m, genre) && m.title == t && m.movieId == id
  }

  /** How many times movie row `m` repeats a rating of movie `id` under title `t`. */
  function OwnCount(m: Movie, genre: string, t: string, id: int): nat
  {
    if Listed(m, genre, t, id) then 1 else 0
  }

  /** How many rows of the movies table are listed under (`genre`, `t`, `id`):
      the number of times the join repeats a rating of `id` under title `t`. */
  function ListedCount(movies: seq<Movie>, genre: string, t: string, id: int): nat
    decreases |movies|
  {
    if movies == [] then 0
    else OwnCount(movies[0], genre, t, id) + ListedCount(movies[1..], genre, t, id)
  }

  function Repeat(x: real, n: nat): (r: seq<real>)
    ensures |r| == n
    decreases n
  {
    if n == 0 then [] else [x] + Repeat(x, n - 1)
  }

  /** Every rating that belongs to title `t` in `genre`, read straight off the
      ratings table: each rating once for every movie row of that title and
      genre that carries its movieId. */
  function TitleRatings(genre: string, movies: seq<Movie>, ratings: seq<Rating>, t: string): seq<real>
    decreases |ratings|
  {
    if ratings == [] then []
    else
      Repeat(ratings[0].rating, ListedCount(movies, genre, t, ratings[0].movieId))
      + TitleRatings(genre, movies, ratings[1..], t)
  }

  /** What the statistics row of title `t` ought to hold. */
  function Expected(genre: string, movies: seq<Movie>, ratings: seq<Rating>, t: string): MovieStat
  {
    var g := TitleRatings(genre, movies, ratings, t);
    MovieStat(t, Mean(g), |g|)
  }

  /** Title `t` has enough ratings in `genre` to be recommended. */
  predicate Qualifies(genre: string, movies: seq<Movie>, ratings: seq<Rating>, t: string)
  {
    |TitleRatings(genre, movies, ratings, t)| >= MinRatings
  }

  /* ================= Lemmas: the join and the group ================= */

  lemma GroupRatingsCons(row: Row, rest: seq<Row>, t: string)
    ensures GroupRatings([row] + rest, t) == (if row.title == t then [row.rating] else []) + GroupRatings(rest, t)
  {
    assert ([row] + rest)[0] == row && ([row] + rest)[1..] == rest;
  }

  lemma {:induction false} GroupRatingsAppend(a: seq<Row>, b: seq<Row>, t: string)
    ensures GroupRatings(a + b, t) == GroupRatings(a, t) + GroupRatings(b, t)
    decreases |a|
  {
    if a == [] {
      assert a + b == b;
    } else {
      var head := if a[0].title == t then [a[0].rating] else [];
      GroupRatingsAppend(a[1..], b, t);
      assert a + b == [a[0]] + (a[1..] + b);
      GroupRatingsCons(a[0], a[1..] + b, t);
      assert a == [a[0]] + a[1..];
      GroupRatingsCons(a[0], a[1..], t);
      assert head + (GroupRatings(a[1..], t) + GroupRatings(b, t))
          == (head + GroupRatings(a[1..], t)) + GroupRatings(b, t);
    }
  }

  /** The ratings of movie `id`, in the order of the ratings table. */
  function RatingsOf(id: int, ratings: seq<Rating>): seq<real>
    decreases |ratings|
  {
    if ratings == [] then []
    else (if ratings[0].movieId == id then [ratings[0].rating] else []) + RatingsOf(id, ratings[1..])
  }

  lemma {:induction false} GroupMergeOne(m: Movie, ratings: seq<Rating>, t: string)
    ensures GroupRatings(MergeOne(m, ratings), t) == if m.title == t then RatingsOf(m.movieId, ratings) else []
    decreases |ratings|
  {
    if ratings != [] {
      var head := if ratings[0].movieId == m.movieId then [Row(m.title, ratings[0].rating)] else [];
      GroupRatingsAppend(head, MergeOne(m, ratings[1..]), t);
      GroupMergeOne(m, ratings[1..], t);
    }
  }

  /** The ratings that movie row `m` contributes to the group of title `t`. */
  function OwnRatings(m: Movie, genre: string, ratings: seq<Rating>, t: string): seq<real>
  {
    if InGenre(m, genre) && m.title == t then RatingsOf(m.movieId, ratings) else []
  }

  /** The ratings of the genre's movie rows titled `t`, movie by movie. */
  function PerMovie(genre: string, movies: seq<Movie>, ratings: seq<Rating>, t: string): seq<real>
    decreases |movies|
  {
    if movies == [] then []
    else OwnRatings(movies[0], genre, ratings, t) + PerMovie(genre, movies[1..], ratings, t)
  }

  lemma {:induction false} GroupOfMerge(genre: string, movies: seq<Movie>, ratings: seq<Rating>, t: string)
    ensures GroupRatings(Merge(MoviesInGenre(movies, genre), ratings), t) == PerMovie(genre, movies, ratings, t)
    decreases |movies|
  {
    if movies != [] {
      GroupOfMerge(genre, movies[1..], ratings, t);
      var m := movies[0];
      var rest := MoviesInGenre(movies[1..], genre);
      if InGenre(m, genre) {
        var ms := [m] + rest;
        assert MoviesInGenre(movies, genre) == ms;
        assert ms[0] == m && ms[1..] == rest;
        GroupRatingsAppend(MergeOne(m, ratings), Merge(rest, ratings), t);
        GroupMergeOne(m, ratings, t);
      } else {
        assert MoviesInGenre(movies, genre) == rest;
      }
    }
  }

  lemma {:induction false} RepeatAdd(x: real, a: nat, b: nat)
    ensures Repeat(x, a + b) == Repeat(x, a) + Repeat(x, b)
    decreases a
  {
    if a > 0 {
      RepeatAdd(x, a - 1, b);
      var n: nat := a - 1 + b;
      assert Repeat(x, n + 1) == [x] + Repeat(x, n);
      assert [x] + (Repeat(x, a - 1) + Repeat(x, b)) == ([x] + Repeat(x, a - 1)) + Repeat(x, b);
    } else {
      assert Repeat(x, a) + Repeat(x, b) == Repeat(x, b);
    }
  }

  lemma {:induction false} TitleRatingsNoMovies(genre: string, ratings: seq<Rating>, t: string)
    ensures TitleRatings(genre, [], ratings, t) == []
    decreases |ratings|
  {
    if ratings != [] {
      TitleRatingsNoMovies(genre, ratings[1..], t);
    }
  }

  lemma OwnRatingsStep(m: Movie, genre: string, ratings: seq<Rating>, t: string)
    requires ratings != []
    ensures OwnRatings(m, genre, ratings, t) ==
      Repeat(ratings[0].rating, OwnCount(m, genre, t, ratings[0].movieId)) + OwnRatings(m, genre, ratings[1..], t)
  {
    assert Repeat(ratings[0].rating, 1) == [ratings[0].rating];
  }

  lemma TitleRatingsStep(genre: string, movies: seq<Movie>, ratings: seq<Rating>, t: string)
    requires movies != [] && ratings != []
    ensures TitleRatings(genre, movies, ratings, t) ==
      Repeat(ratings[0].rating, OwnCount(movies[0], genre, t, ratings[0].movieId))
      + TitleRatings(genre, movies[1..], [ratings[0]], t)
      + TitleRatings(genre, movies, ratings[1..], t)
  {
    var x := ratings[0];
    var c0 := OwnCount(movies[0], genre, t, x.movieId);
    var c1 := ListedCount(movies[1..], genre, t, x.movieId);
    assert ListedCount(movies, genre, t, x.movieId) == c0 + c1;
    RepeatAdd(x.rating, c0, c1);
    assert TitleRatings(genre, movies[1..], [x], t) == Repeat(x.rating, c1) by {
      assert [x][1..] == [];
    }
  }

  lemma TitleRatingsFirstRating(genre: string, movies: seq<Movie>, ratings: seq<Rating>, t: string)
    requires ratings != []
    ensures TitleRatings(genre, movies, ratings, t) ==
      TitleRatings(genre, movies, [ratings[0]], t) + TitleRatings(genre, movies, ratings[1..], t)
  {
    var x := ratings[0];
    assert [x][1..] == [];
    assert TitleRatings(genre, movies, [x], t) == Repeat(x.rating, ListedCount(movies, genre, t, x.movieId));
  }

  /** Peeling the first movie row off the reference definition. */
  lemma {:induction false} TitleRatingsFirstMovie(genre: string, movies: seq<Movie>, ratings: seq<Rating>, t: string)
    requires movies != []
    ensures multiset(TitleRatings(genre, movies, ratings, t)) ==
      multiset(OwnRatings(movies[0], genre, ratings, t)) + multiset(TitleRatings(genre, movies[1..], ratings, t))
    decreases |ratings|
  {
    if ratings != [] {
      var others, x, later := movies[1..], ratings[0], ratings[1..];
      TitleRatingsFirstMovie(genre, movies, later, t);
      TitleRatingsStep(genre, movies, ratings, t);
      OwnRatingsStep(movies[0], genre, ratings, t);
      TitleRatingsFirstRating(genre, others, ratings, t);
      var own1 := Repeat(x.rating, OwnCount(movies[0], genre, t, x.movieId));
      var rest1 := TitleRatings(genre, others, [x], t);
      var ownLater := OwnRatings(movies[0], genre, later, t);
      var restLater := TitleRatings(genre, others, later, t);
      calc {
        multiset(TitleRatings(genre, movies, ratings, t));
        multiset(own1) + multiset(rest1) + multiset(TitleRatings(genre, movies, later, t));
        multiset(own1) + multiset(rest1) + (multiset(ownLater) + multiset(restLater));
        (multiset(own1) + multiset(ownLater)) + (multiset(rest1) + multiset(restLater));
        multiset(OwnRatings(movies[0], genre, ratings, t)) + multiset(TitleRatings(genre, others, ratings, t));
      }
    }
  }

  lemma {:induction false} PerMovieIsTitleRatings(genre: string, movies: seq<Movie>, ratings: seq<Rating>, t: string)
    ensures multiset(PerMovie(genre, movies, ratings, t)) == multiset(TitleRatings(genre, movies, ratings, t))
    decreases |movies|
  {
    if movies == [] {
      TitleRatingsNoMovies(genre, ratings, t);
    } else {
      PerMovieIsTitleRatings(genre, movies[1..], ratings, t);
      TitleRatingsFirstMovie(genre, movies, ratings, t);
    }
  }

  lemma {:induction false} SumAppend(a: seq<real>, b: seq<real>)
    ensures Sum(a + b) == Sum(a) + Sum(b)
    decreases |a|
  {
    if a == [] {
      assert a + b == b;
    } else {
      assert (a + b)[1..] == a[1..] + b;
      SumAppend(a[1..], b);
    }
  }

  lemma SumRemove(b: seq<real>, k: nat)
    requires k < |b|
    ensures Sum(b) == b[k] + Sum(b[..k] + b[k + 1..])
  {
    var front, back := b[..k], b[k + 1..];
    assert b == front + ([b[k]] + back);
    SumAppend(front, [b[k]] + back);
    assert Sum([b[k]] + back) == b[k] + Sum(back);
    SumAppend(front, back);
  }

  /** Removing the same element from two permutations of each other leaves
      permutations of each other. */
  lemma PermutationRemove(a: seq<real>, b: seq<real>, k: nat)
    requires multiset(a) == multiset(b) && a != [] && k < |b| && b[k] == a[0]
    ensures multiset(a[1..]) == multiset(b[..k] + b[k + 1..])
  {
    assert a == [a[0]] + a[1..];
    assert multiset(a) == multiset{a[0]} + multiset(a[1..]);
    assert b == b[..k] + [b[k]] + b[k + 1..];
    assert multiset(b) == multiset(b[..k]) + multiset{b[k]} + multiset(b[k + 1..]);
    assert multiset(b[..k] + b[k + 1..]) == multiset(b[..k]) + multiset(b[k + 1..]);
    assert multiset(a[1..]) == multiset(a) - multiset{a[0]};
    assert multiset(b[..k] + b[k + 1..]) == multiset(b) - multiset{b[k]};
  }

  /** A sum does not depend on the order of its terms. */
  lemma {:induction false} SumPermutation(a: seq<real>, b: seq<real>)
    requires multiset(a) == multiset(b)
    ensures Sum(a) == Sum(b)
    decreases |a|
  {
    if a == [] {
      assert |b| == |multiset(b)| == 0;
    } else {
      assert a[0] in multiset(b);
      var k :| 0 <= k < |b| && b[k] == a[0];
      PermutationRemove(a, b, k);
      SumPermutation(a[1..], b[..k] + b[k + 1..]);
      SumRemove(b, k);
    }
  }

  /** The statistics row the query computes for title `t` is the one the
      reference definition prescribes. */
  lemma GroupStatIsExpected(genre: string, movies: seq<Movie>, ratings: seq<Rating>, t: string)
    ensures StatOf(Merge(MoviesInGenre(movies, genre), ratings), t) == Expected(genre, movies, ratings, t)
  {
    var g := GroupRatings(Merge(MoviesInGenre(movies, genre), ratings), t);
    var e := TitleRatings(genre, movies, ratings, t);
    GroupOfMerge(genre, movies, ratings, t);
    PerMovieIsTitleRatings(genre, movies, ratings, t);
    assert |g| == |multiset(g)| == |multiset(e)| == |e|;
    SumPermutation(g, e);
  }

  /* ================= Lemmas: the recommendation ================= */

  /** Every row of the recommendation is the reference statistics of its
      title, and that title qualifies. */
  lemma TopMoviesAreExpected(genre: string, movies: seq<Movie>, ratings: seq<Rating>)
    ensures forall s :: s in TopMovies(genre, movies, ratings) ==>
      s == Expected(genre, movies, ratings, s.title) && Qualifies(genre, movies, ratings, s.title)
  {
    var ranked := Ranked(genre, movies, ratings);
    var top := TopMovies(genre, movies, ratings);
    forall s | s in top
      ensures s == Expected(genre, movies, ratings, s.title) && Qualifies(genre, movies, ratings, s.title)
    {
      var j :| 0 <= j < |top| && top[j] == s;
      assert ranked[j] == s;
      GroupStatIsExpected(genre, movies, ratings, s.title);
    }
  }

  /** A group holds only ratings of rows that carry the group's title. */
  lemma GroupRatingsMember(rows: seq<Row>, t: string, y: real)
    requires y in GroupRatings(rows, t)
    ensures Row(t, y) in rows
  {
    assert multiset(GroupRatings(rows, t))[y] > 0;
    assert Row(t, y) in multiset(rows);
  }

  /** Every rating in a title's group is a rating of the ratings table. */
  lemma GroupRatingsFromTable(movies: seq<Movie>, ratings: seq<Rating>, t: string, y: real)
    requires y in GroupRatings(Merge(movies, ratings), t)
    ensures exists x :: x in ratings && x.rating == y
  {
    var rows := Merge(movies, ratings);
    GroupRatingsMember(rows, t, y);
    var row := Row(t, y);
    assert row in rows;
    var m, x :| m in movies && x in ratings && m.movieId == x.movieId && row == Row(m.title, x.rating);
  }

  /** When every rating lies in [lo, hi], so does every recommended mean. */
  lemma TopMoviesMeanInRange(genre: string, movies: seq<Movie>, ratings: seq<Rating>, lo: real, hi: real)
    requires forall x :: x in ratings ==> lo <= x.rating <= hi
    ensures forall s :: s in TopMovies(genre, movies, ratings) ==> lo <= s.avgRating <= hi
  {
    var ranked := Ranked(genre, movies, ratings);
    var top := TopMovies(genre, movies, ratings);
    var rows := Merge(MoviesInGenre(movies, genre), ratings);
    forall s | s in top ensures lo <= s.avgRating <= hi {
      var j :| 0 <= j < |top| && top[j] == s;
      assert ranked[j] == s;
      var g := GroupRatings(rows, s.title);
      assert s == StatOf(rows, s.title) && |g| >= 1;
      forall i | 0 <= i < |g| ensures lo <= g[i] <= hi {
        assert g[i] in g;
        GroupRatingsFromTable(MoviesInGenre(movies, genre), ratings, s.title, g[i]);
      }
      MeanBetween(g, lo, hi);
    }
  }

  /** Putting a row with a new title in front keeps titles distinct. */
  lemma DistinctCons(head: MovieStat, rest: seq<MovieStat>)
    requires DistinctTitles(rest)
    requires forall s :: s in rest ==> s.title != head.title
    ensures DistinctTitles([head] + rest)
  {
    var r := [head] + rest;
    forall i, j | 0 <= i < j < |r| ensures r[i].title != r[j].title {
      assert r[j] == rest[j - 1] && rest[j - 1] in rest;
      if i > 0 {
        assert r[i] == rest[i - 1];
      }
    }
  }

  /** Titles other than the first row's are those of the rest. */
  lemma DistinctTail(stats: seq<MovieStat>)
    requires stats != [] && DistinctTitles(stats)
    ensures DistinctTitles(stats[1..])
    ensures forall s :: s in stats[1..] ==> s.title != stats[0].title
  {
    forall s | s in stats[1..] ensures s.title != stats[0].title {
      var k :| 0 <= k < |stats| - 1 && stats[1..][k] == s;
      assert stats[k + 1] == s;
    }
  }

  lemma {:induction false} InsertKeepsTitlesDistinct(x: MovieStat, ranked: seq<MovieStat>)
    requires DistinctTitles(ranked)
    requires forall s :: s in ranked ==> s.title != x.title
    ensures DistinctTitles(Insert(x, ranked))
    decreases |ranked|
  {
    if ranked == [] || ranked[0].avgRating <= x.avgRating {
      DistinctCons(x, ranked);
    } else {
      var tail := ranked[1..];
      DistinctTail(ranked);
      InsertKeepsTitlesDistinct(x, tail);
      InsertAddsOne(x, tail);
      var rest := Insert(x, tail);
      forall s | s in rest ensures s.title != ranked[0].title {
        assert s in multiset(rest);
        assert s == x || s in tail;
        assert ranked[0] in ranked;
      }
      DistinctCons(ranked[0], rest);
    }
  }

  /** Ranking keeps titles distinct. */
  lemma {:induction false} SortKeepsTitlesDistinct(stats: seq<MovieStat>)
    requires DistinctTitles(stats)
    ensures DistinctTitles(SortByAvgDesc(stats))
    decreases |stats|
  {
    if stats != [] {
      DistinctTail(stats);
      SortKeepsTitlesDistinct(stats[1..]);
      var sorted := SortByAvgDesc(stats[1..]);
      forall s | s in sorted ensures s.title != stats[0].title {
        assert s in multiset(stats[1..]);
      }
      InsertKeepsTitlesDistinct(stats[0], sorted);
    }
  }

  /** No title is recommended twice. */
  lemma TopMoviesDistinctTitles(genre: string, movies: seq<Movie>, ratings: seq<Rating>)
    ensures DistinctTitles(TopMovies(genre, movies, ratings))
  {
    var popular := Popular(GenreStats(genre, movies, ratings));
    PopularKeepsTitlesDistinct(GenreStats(genre, movies, ratings));
    SortKeepsTitlesDistinct(popular);
    var ranked := Ranked(genre, movies, ratings);
    assert ranked == SortByAvgDesc(popular);
    var top := TopMovies(genre, movies, ratings);
    assert forall i :: 0 <= i < |top| ==> top[i] == ranked[i];
  }

  /** A qualifying title has its statistics row among the ranked rows. */
  lemma QualifyingIsRanked(genre: string, movies: seq<Movie>, ratings: seq<Rating>, t: string)
    returns (i: nat)
    requires Qualifies(genre, movies, ratings, t)
    ensures i < |Ranked(genre, movies, ratings)|
    ensures Ranked(genre, movies, ratings)[i] == Expected(genre, movies, ratings, t)
  {
    var rows := Merge(MoviesInGenre(movies, genre), ratings);
    var stats := Aggregate(rows);
    var ranked := Ranked(genre, movies, ratings);
    GroupStatIsExpected(genre, movies, ratings, t);
    GroupNonEmptyIff(rows, t);
    assert GroupRatings(rows, t) != [];
    assert HasTitle(stats, t);
    var s :| s in stats && s.title == t;
    assert s in ranked;
    i :| 0 <= i < |ranked| && ranked[i] == s;
  }

  /** Top-N: a qualifying title is left out only when five rows came back,
      each with a mean at least as high as that title's. */
  lemma TopMoviesOmitsOnlyLower(genre: string, movies: seq<Movie>, ratings: seq<Rating>, t: string)
    requires Qualifies(genre, movies, ratings, t)
    requires !HasTitle(TopMovies(genre, movies, ratings), t)
    ensures |TopMovies(genre, movies, ratings)| == TopCount
    ensures forall s :: s in TopMovies(genre, movies, ratings) ==>
      s.avgRating >= Expected(genre, movies, ratings, t).avgRating
  {
    var ranked := Ranked(genre, movies, ratings);
    var top := TopMovies(genre, movies, ratings);
    assert top == Take(ranked, TopCount);
    var i := QualifyingIsRanked(genre, movies, ratings, t);
    TakeKeepsEarly(ranked, TopCount, i);
    assert ranked[i] !in top;
    assert TopCount <= i;
    forall s | s in top ensures s.avgRating >= ranked[i].avgRating {
      var j :| 0 <= j < |top| && top[j] == s;
      assert top[j] == ranked[j];
    }
  }

  /** A short recommendation is complete: when fewer than five rows come
      back, every qualifying title is among them. */
  lemma TopMoviesShortIsComplete(genre: string, movies: seq<Movie>, ratings: seq<Rating>, t: string)
    requires |TopMovies(genre, movies, ratings)| < TopCount
    requires Qualifies(genre, movies, ratings, t)
    ensures HasTitle(TopMovies(genre, movies, ratings), t)
  {
    if !HasTitle(TopMovies(genre, movies, ratings), t) {
      TopMoviesOmitsOnlyLower(genre, movies, ratings, t);
    }
  }

  /** "No recommendations found" happens exactly when no title of the genre
      has enough ratings. */
  lemma TopMoviesEmptyIff(genre: string, movies: seq<Movie>, ratings: seq<Rating>)
    ensures TopMovies(genre, movies, ratings) == [] <==>
      forall t :: !Qualifies(genre, movies, ratings, t)
  {
    var top := TopMovies(genre, movies, ratings);
    if top == [] {
      forall t ensures !Qualifies(genre, movies, ratings, t) {
        if Qualifies(genre, movies, ratings, t) {
          TopMoviesShortIsComplete(genre, movies, ratings, t);
        }
      }
    } else {
      TopMoviesAreExpected(genre, movies, ratings);
      assert top[0] in top;
    }
  }

  /** With no rating of any movie of the genre (in particular with no movie of
      the genre at all) there is nothing to recommend. */
  lemma NoGenreRatingsMeansEmpty(genre: string, movies: seq<Movie>, ratings: seq<Rating>)
    requires forall m, x :: m in movies && InGenre(m, genre) && x in ratings ==> x.movieId != m.movieId
    ensures TopMovies(genre, movies, ratings) == []
  {
    MergeNoMatches(MoviesInGenre(movies, genre), ratings);
    assert GenreStats(genre, movies, ratings) == [];
  }

  /** The join is empty when no rating carries the movieId of any movie. */
  lemma {:induction false} MergeNoMatches(movies: seq<Movie>, ratings: seq<Rating>)
    requires forall m, x :: m in movies && x in ratings ==> x.movieId != m.movieId
    ensures Merge(movies, ratings) == []
    decreases |movies|
  {
    if movies != [] {
      MergeNoMatches(movies[1..], ratings);
      MergeOneNoMatches(movies[0], ratings);
    }
  }

  lemma {:induction false} MergeOneNoMatches(m: Movie, ratings: seq<Rating>)
    requires forall x :: x in ratings ==> x.movieId != m.movieId
    ensures MergeOne(m, ratings) == []
    decreases |ratings|
  {
    if ratings != [] {
      MergeOneNoMatches(m, ratings[1..]);
    }
  }

  /** The case of the chosen genre does not matter. */
  lemma {:induction false} MoviesInGenreIgnoresCase(movies: seq<Movie>, genre: string)
    ensures MoviesInGenre(movies, genre) == MoviesInGenre(movies, Lower(genre))
    decreases |movies|
  {
    if movies != [] {
      LowerIdempotent(genre);
      MoviesInGenreIgnoresCase(movies[1..], genre);
    }
  }

  lemma TopMoviesIgnoresCase(genre: string, movies: seq<Movie>, ratings: seq<Rating>)
    ensures TopMovies(genre, movies, ratings) == TopMovies(Lower(genre), movies, ratings)
  {
    MoviesInGenreIgnoresCase(movies, genre);
  }

  /** Every genre the vocabulary offers selects at least the movies that list
      it, so the query never starts from an empty table for such a genre. */
  lemma VocabularyGenreHasMovies(movies: seq<Movie>, g: string)
    requires g in Vocabulary(movies)
    ensures MoviesInGenre(movies, g) != []
  {
    VocabularyIff(movies, g);
    var i :| 0 <= i < |movies| && g in Labels(movies[i]);
    SplitPieceOccurs(movies[i].genres, GenreSeparator, g);
    ContainsThenContainsIgnoreCase(movies[i].genres, g);
    assert movies[i] in MoviesInGenre(movies, g);
  }

  /* ================= Movie ids are unique ================= */

  predicate UniqueMovieIds(movies: seq<Movie>)
  {
    forall i, j :: 0 <= i < j < |movies| ==> movies[i].movieId != movies[j].movieId
  }

  /** Some movie row is listed under (`genre`, `t`, `id`). */
  predicate AnyListed(movies: seq<Movie>, genre: string, t: string, id: int)
  {
    exists m :: m in movies && Listed(m, genre, t, id)
  }

  /** The ratings whose movie is one of the genre's movies titled `t`, in the
      order of the ratings table. */
  function RatingsOfListed(genre: string, movies: seq<Movie>, ratings: seq<Rating>, t: string): seq<real>
    decreases |ratings|
  {
    if ratings == [] then []
    else
      (if AnyListed(movies, genre, t, ratings[0].movieId) then [ratings[0].rating] else [])
      + RatingsOfListed(genre, movies, ratings[1..], t)
  }

  lemma {:induction false} ListedCountPositive(movies: seq<Movie>, genre: string, t: string, id: int)
    ensures ListedCount(movies, genre, t, id) > 0 <==> AnyListed(movies, genre, t, id)
    decreases |movies|
  {
    if movies != [] {
      ListedCountPositive(movies[1..], genre, t, id);
      if AnyListed(movies, genre, t, id) && !Listed(movies[0], genre, t, id) {
        var m :| m in movies && Listed(m, genre, t, id);
        assert m in movies[1..];
      }
      if AnyListed(movies[1..], genre, t, id) {
        var m :| m in movies[1..] && Listed(m, genre, t, id);
        assert m in movies;
      }
    }
  }

  lemma {:induction false} ListedCountAtMostOne(movies: seq<Movie>, genre: string, t: string, id: int)
    requires UniqueMovieIds(movies)
    ensures ListedCount(movies, genre, t, id) <= 1
    decreases |movies|
  {
    if movies != [] {
      assert UniqueMovieIds(movies[1..]);
      ListedCountAtMostOne(movies[1..], genre, t, id);
      if Listed(movies[0], genre, t, id) {
        ListedCountPositive(movies[1..], genre, t, id);
      }
    }
  }

  /** When every movie has its own movieId, a title's ratings are simply the
      ratings whose movieId belongs to one of the genre's movies with that title. */
  lemma {:induction false} UniqueIdsTitleRatings(genre: string, movies: seq<Movie>, ratings: seq<Rating>, t: string)
    requires UniqueMovieIds(movies)
    ensures TitleRatings(genre, movies, ratings, t) == RatingsOfListed(genre, movies, ratings, t)
    decreases |ratings|
  {
    if ratings != [] {
      UniqueIdsTitleRatings(genre, movies, ratings[1..], t);
      var id := ratings[0].movieId;
      ListedCountAtMostOne(movies, genre, t, id);
      ListedCountPositive(movies, genre, t, id);
      assert Repeat(ratings[0].rating, 1) == [ratings[0].rating];
    }
  }

  /** With unique movieIds, each recommended row holds exactly the count and
      mean of the ratings of that title's movies in the genre. */
  lemma TopMoviesUniqueIds(genre: string, movies: seq<Movie>, ratings: seq<Rating>)
    requires UniqueMovieIds(movies)
    ensures forall s :: s in TopMovies(genre, movies, ratings) ==>
      s.ratingCount == |RatingsOfListed(genre, movies, ratings, s.title)| &&
      s.avgRating == Mean(RatingsOfListed(genre, movies, ratings, s.title))
  {
    TopMoviesAreExpected(genre, movies, ratings);
    forall s | s in TopMovies(genre, movies, ratings)
      ensures s.ratingCount == |RatingsOfListed(genre, movies, ratings, s.title)|
      ensures s.avgRating == Mean(RatingsOfListed(genre, movies, ratings, s.title))
    {
      UniqueIdsTitleRatings(genre, movies, ratings, s.title);
    }
  }
}
