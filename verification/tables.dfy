/**
 * The two input tables and the derived statistics row, one datatype per
 * record. Scores are exact reals, so a mean is the exact quotient.
 */
module Tables {

  /** One row of the movies table: `genres` is a '|'-separated list of labels. */
  datatype Movie = Movie(movieId: int, title: string, genres: string)

  /** One row of the ratings table. */
  datatype Rating = Rating(userId: int, movieId: int, rating: real)

  /** One row of the recommendation: a title, the mean of its ratings and
      how many ratings there were. */
  datatype MovieStat = MovieStat(title: string, avgRating: real, ratingCount: nat)
}
