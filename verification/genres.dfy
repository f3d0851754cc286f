/**
 * The genre vocabulary offered to the user: every '|'-separated label of
 * every movie, each once, in ascending code-point order.
 */
module Genres {
  import opened Text
  import opened Tables

  /** The separator between labels in a movie's `genres` field. */
  const GenreSeparator: char := '|'

  /** The labels listed by one movie. */
  function Labels(m: Movie): seq<string>
  {
    Split(m.genres, GenreSeparator)
  }

  /** Every label listed by some movie of `movies`, built up movie by movie. */
  ghost function Vocabulary(movies: seq<Movie>): set<string>
    decreases |movies|
  {
    if movies == [] then {}
    else Vocabulary(movies[..|movies| - 1]) + Elements(Labels(movies[|movies| - 1]))
  }

  function Elements(s: seq<string>): (r: set<string>)
    ensures forall x :: x in r <==> x in s
  {
    set x | x in s
  }

  /** A label belongs to the vocabulary exactly when some movie lists it. */
  lemma {:induction false} VocabularyIff(movies: seq<Movie>, g: string)
    ensures g in Vocabulary(movies) <==> exists i :: 0 <= i < |movies| && g in Labels(movies[i])
    decreases |movies|
  {
    if movies != [] {
      var n := |movies| - 1;
      VocabularyIff(movies[..n], g);
      if i :| 0 <= i < n && g in Labels(movies[..n][i]) {
        assert movies[..n][i] == movies[i];
      }
      if i :| 0 <= i < |movies| && g in Labels(movies[i]) {
        if i < n {
          assert movies[..n][i] == movies[i];
        }
      }
    }
  }

  /** Strictly ascending in code-point order: sorted and without repeats. */
  predicate StrictlyAscending(s: seq<string>)
  {
    forall i, j :: 0 <= i < j < |s| ==> Less(s[i], s[j])
  }

  /** A strictly ascending sequence is determined by its elements: sorting a
      set has exactly one possible outcome. */
  lemma {:induction false} StrictlyAscendingUnique(a: seq<string>, b: seq<string>)
    requires StrictlyAscending(a) && StrictlyAscending(b)
    requires forall x :: x in a <==> x in b
    ensures a == b
    decreases |a|
  {
    assert a != [] ==> a[0] in b;
    assert b != [] ==> b[0] in a;
    if a != [] {
      if a[0] != b[0] {
        var i :| 0 <= i < |a| && a[i] == b[0];
        var j :| 0 <= j < |b| && b[j] == a[0];
        assert i > 0 && j > 0;
        assert Less(a[0], b[0]) && Less(b[0], a[0]);
        LessTransitive(a[0], b[0], a[0]);
        LessIrreflexive(a[0]);
      } else {
        forall x ensures x in a[1..] <==> x in b[1..] {
          if x in a[1..] {
            var i :| 0 <= i < |a| - 1 && a[1..][i] == x;
            assert Less(a[0], a[i + 1]);
            LessIrreflexive(x);
            assert x in b;
            var j :| 0 <= j < |b| && b[j] == x;
            assert j != 0;
            assert b[1..][j - 1] == x;
          }
          if x in b[1..] {
            var j :| 0 <= j < |b| - 1 && b[1..][j] == x;
            assert Less(b[0], b[j + 1]);
            LessIrreflexive(x);
            assert x in a;
            var i :| 0 <= i < |a| && a[i] == x;
            assert i != 0;
            assert a[1..][i - 1] == x;
          }
        }
        StrictlyAscendingUnique(a[1..], b[1..]);
        assert a == [a[0]] + a[1..] && b == [b[0]] + b[1..];
      }
    }
  }

  /** The least string of a non-empty set. */
  method Least(s: set<string>) returns (m: string)
    requires s != {}
    ensures m in s
    ensures forall x :: x in s && x != m ==> Less(m, x)
  {
    m :| m in s;
    var unseen := s - {m};
    while unseen != {}
      invariant m in s && unseen <= s && m !in unseen
      invariant forall x :: x in s - unseen && x != m ==> Less(m, x)
      decreases unseen
    {
      var x :| x in unseen;
      LessTotal(x, m);
      if Less(x, m) {
        forall y | y in s - unseen && y != x
          ensures Less(x, y)
        {
          if y != m {
            LessTransitive(x, m, y);
          }
        }
        m := x;
      }
      unseen := unseen - {x};
    }
  }

  /** The elements of `s` in ascending order (sorted() of a set). */
  method SortedStrings(s: set<string>) returns (r: seq<string>)
    ensures StrictlyAscending(r)
    ensures forall x :: x in r <==> x in s
  {
    r := [];
    var remaining := s;
    while remaining != {}
      invariant remaining <= s
      invariant forall x :: x in r <==> x in s && x !in remaining
      invariant StrictlyAscending(r)
      invariant forall x, y :: x in r && y in remaining ==> Less(x, y)
      decreases remaining
    {
      var m := Least(remaining);
      r := r + [m];
      remaining := remaining - {m};
    }
  }

  /** get_unique_genres: collect every label of every movie into a set, then
      return the set sorted. */
  method UniqueGenres(movies: seq<Movie>) returns (genres: seq<string>)
    ensures StrictlyAscending(genres)
    ensures forall g :: g in genres <==> g in Vocabulary(movies)
    ensures forall g :: g in genres <==> exists i :: 0 <= i < |movies| && g in Labels(movies[i])
  {
    var genreSet: set<string> := {};
    for i := 0 to |movies|
      invariant genreSet == Vocabulary(movies[..i])
    {
      genreSet := genreSet + Elements(Labels(movies[i]));
      assert movies[..i + 1][..i] == movies[..i];
    }
    assert movies[..|movies|] == movies;
    genres := SortedStrings(genreSet);
    forall g ensures g in genres <==> exists i :: 0 <= i < |movies| && g in Labels(movies[i]) {
      VocabularyIff(movies, g);
    }
  }
}
