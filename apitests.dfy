/**
 * The expectations of unit_tests/api_tests.py, replayed against the model.
 * Each modelled test starts from the rows its setup adds directly (the
 * genre "Action" and some movies, or nothing at all for the empty
 * listing); the replays build the same tables and make the same single
 * request.
 */
module ApiTests {
  import opened Wrappers
  import opened Models
  import opened Text
  import opened Queries
  import opened Handlers

  const Movie1: Movie := Movie(1, "Movie 1", Some(8.0), 2000, 1, true)
  const Movie2: Movie := Movie(2, "Movie 2", Some(9.0), 2001, 1, true)

  /** A store holding the genre "Action" and the given movie rows, as a test's setup leaves it. */
  method SeededStore(movies: seq<Movie>) returns (store: MovieStore)
    requires RowIdsArePositions(movies)
    ensures fresh(store) && store.Valid()
    ensures store.movies == movies && store.genres == [Genre(1, "Action", true)]
  {
    store := new MovieStore();
    store.genres := [Genre(1, "Action", true)];
    store.movies := movies;
  }

  /** Listing an empty table succeeds with an empty list (the handler sets 200). */
  lemma ReplayGetNoMovies()
    ensures QueryMovies([], None, None) == Response(200, Rows([]))
  {
  }

  /** Listing returns both rows, in insertion order. */
  lemma ReplayGetMoviesList()
    ensures QueryMovies([Movie1, Movie2], None, None) == Response(200, Rows([Movie1, Movie2]))
  {
    GetMoviesAppend([Movie1], Movie2);
    GetMoviesAppend([], Movie1);
    assert [Movie1] == [] + [Movie1];
  }

  /** Creating "Movie 1" in an empty movies table answers 201 with id 1. */
  method ReplayCreateNewMovie() returns (resp: Response)
    ensures resp == Response(201, Row(Movie1))
  {
    var store := SeededStore([]);
    resp := CreateMovie(store, MovieIn("Movie 1", Some(8.0), 2000, 1));
  }

  /** PUT replaces every field of movie 1. */
  method ReplayUpdateComplete() returns (resp: Response)
    ensures resp == Response(200, Row(Movie(1, "Movie 2", Some(9.0), 2001, 1, true)))
  {
    var store := SeededStore([Movie1]);
    resp := UpdateMovie(store, 1, MovieIn("Movie 2", Some(9.0), 2001, 1));
  }

  /** PATCH with every query parameter given changes every field of movie 1. */
  method ReplayUpdatePartial() returns (resp: Response)
    ensures resp == Response(200, Row(Movie(1, "Movie 2", Some(9.0), 2001, 1, true)))
  {
    var store := SeededStore([Movie1]);
    resp := PartialUpdateMovie(store, 1, Some("Movie 2"), Some(9.0), Some(2001), Some(1));
  }

  /** DELETE of movie 1 answers 200 with its last values. */
  method ReplayDeleteMovie() returns (resp: Response)
    ensures resp == Response(200, Row(Movie1.(isActive := false)))
  {
    var store := SeededStore([Movie1]);
    resp := DeleteMovie(store, 1);
  }

  /** DELETE of an id with no row answers 404 naming the id. */
  method ReplayDeleteMissing() returns (resp: Response)
    ensures resp == Response(404, Detail("Missing movie with id 2"))
  {
    var store := SeededStore([Movie1]);
    assert DigitChar(2) == '2';
    assert MissingMovie(2) == "Missing movie with id 2";
    resp := DeleteMovie(store, 2);
  }

  /** GET of movie 1 answers 200 with the row. */
  lemma ReplayGetMovieById()
    ensures GetMovie([Movie1], 1) == Response(200, Row(Movie1))
  {
  }

  /** Both stored titles contain "Movie". */
  lemma TitlesContainMovie()
    ensures ContainsIgnoreCase("Movie 1", "Movie") && ContainsIgnoreCase("Movie 2", "Movie")
  {
    assert Lower("Movie") == "movie";
    assert Lower("Movie 1") == "movie 1";
    assert Lower("Movie 2") == "movie 2";
    assert "movie" <= "movie 1" && "movie" <= "movie 2";
  }

  /** Searching "Movie" finds both rows, in insertion order. */
  lemma ReplayQueryMovies()
    ensures QueryMovies([Movie1, Movie2], Some("Movie"), None) == Response(200, Rows([Movie1, Movie2]))
  {
    TitlesContainMovie();
    var t := [Movie1, Movie2];
    assert forall i :: 0 <= i < |t| ==> ActiveMatch(t[i], "Movie");
    FilterAll(t, m => ActiveMatch(m, "Movie"));
  }

  /** Searching "Movie" with limit 1 keeps only the first row. */
  lemma ReplayQueryAndLimit()
    ensures QueryMovies([Movie1, Movie2], Some("Movie"), Some(1)) == Response(200, Rows([Movie1]))
  {
    ReplayQueryMovies();
    GetMoviesByQueryLimited([Movie1, Movie2], "Movie", 1);
  }

  /** Listing genres returns both active genres, in insertion order. */
  lemma ReplayGetAllGenres()
    ensures GetGenresList([Genre(1, "Action", true), Genre(2, "Comedy", true)]) ==
            Response(200, GenreRows([Genre(1, "Action", true), Genre(2, "Comedy", true)]))
  {
    var g := [Genre(1, "Action", true), Genre(2, "Comedy", true)];
    assert forall i :: 0 <= i < |g| ==> g[i].isActive;
    GetGenresAllActive(g);
    assert GetGenresList(g) == Response(200, GenreRows(GetGenres(g)));
  }

  /**
   * A longer request sequence through the handlers, from an empty
   * database: create, list, patch, delete, then GET and a second DELETE of
   * the same id, both of which find nothing.
   */
  method DeleteSequence() returns (fetched: Response, again: Response)
    ensures fetched == Response(404, Detail(MissingMovie(1)))
    ensures again == Response(404, Detail(MissingMovie(1)))
  {
    var store := new MovieStore();
    var created := CreateMovie(store, MovieIn("Movie 1", Some(8.0), 2000, 1));
    assert created == Response(201, Row(Movie1));
    assert store.movies == [Movie1];

    var listed := QueryMovies(store.movies, None, None);
    assert listed == Response(200, Rows([Movie1]));

    var patched := PartialUpdateMovie(store, 1, Some("Movie 2"), Some(9.0), Some(2001), Some(1));
    var row2 := Movie(1, "Movie 2", Some(9.0), 2001, 1, true);
    assert patched == Response(200, Row(row2));

    var deleted := DeleteMovie(store, 1);
    assert deleted == Response(200, Row(row2.(isActive := false)));

    fetched := GetMovie(store.movies, 1);
    again := DeleteMovie(store, 1);
  }
}
