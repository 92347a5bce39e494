/**
 * The two persisted entities and the request body of the movie endpoints
 * (sql_app/models.py and sql_app/schemas.py).
 */
module Models {
  import opened Wrappers

  /** A row of the `movies` table. `rating` is optional; ratings are exact reals. */
  datatype Movie = Movie(id: int, title: string, rating: Option<real>, year: int, genreId: int, isActive: bool)

  /** A row of the `genres` table. */
  datatype Genre = Genre(id: int, name: string, isActive: bool)

  /** The `MovieBase` request body: every field but the rating is required. */
  datatype MovieIn = MovieIn(title: string, rating: Option<real>, year: int, genreId: int)
}
