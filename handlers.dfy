/**
 * The request handlers of sql_app/main.py: business validation in front of
 * the store, and the mapping of each outcome to a status code and a body.
 * Each handler is one atomic step over the store.
 */
module Handlers {
  import opened Wrappers
  import opened Models
  import opened Text
  import opened Queries

  /** A response body: one movie, a list of movies, a list of genres, or an error detail. */
  datatype Body = Row(movie: Movie) | Rows(movies: seq<Movie>) | GenreRows(genres: seq<Genre>) | Detail(detail: string)

  datatype Response = Response(status: nat, body: Body)

  const AlreadyAdded: string := "Movie already added"
  const BadRating: string := "Rating must be between 0 and 10"
  const NoMovieFound: string := "No movie was found"
  /** What the framework answers when a handler raises (comparing a missing rating with a number). */
  const InternalError: string := "Internal Server Error"

  function MissingMovie(id: int): string {
    "Missing movie with id " + IntText(id)
  }

  /** The rejection test `rating < 0 or rating > 10`: both bounds are allowed. */
  predicate RatingOutOfRange(r: real) {
    r < 0.0 || r > 10.0
  }

  // ---------------------------------------------------------------------
  // The duplicate rule of create
  // ---------------------------------------------------------------------

  /**
   * Among the first 100 active rows whose title contains the incoming title
   * (ignoring case), one has the incoming year.
   */
  predicate HasDuplicate(t: seq<Movie>, m: MovieIn) {
    exists x :: x in GetMoviesByQuery(t, m.title, Some(DefaultLimit)) && x.year == m.year
  }

  /** The scan over the query result that `create_movie` runs before anything else. */
  method FindDuplicate(t: seq<Movie>, m: MovieIn) returns (dup: bool)
    ensures dup <==> HasDuplicate(t, m)
  {
    var candidates := GetMoviesByQuery(t, m.title, Some(DefaultLimit));
    for i := 0 to |candidates|
      invariant forall j :: 0 <= j < i ==> candidates[j].year != m.year
    {
      if candidates[i].year == m.year {
        return true;
      }
    }
    return false;
  }

  /** A duplicate is always a real clash: an active row, containing the title, same year. */
  lemma DuplicateIsClash(t: seq<Movie>, m: MovieIn)
    requires HasDuplicate(t, m)
    ensures exists x :: x in t && x.isActive && ContainsIgnoreCase(x.title, m.title) && x.year == m.year
  {
  }

  /**
   * While at most 100 active titles contain the incoming one, the rule
   * catches every clash; beyond that window a clash may go unnoticed.
   */
  lemma DuplicateWithinWindow(t: seq<Movie>, m: MovieIn)
    requires |Filter(t, x => ActiveMatch(x, m.title))| <= DefaultLimit
    ensures HasDuplicate(t, m) <==>
            exists x :: x in t && x.isActive && ContainsIgnoreCase(x.title, m.title) && x.year == m.year
  {
    var matches := Filter(t, x => ActiveMatch(x, m.title));
    assert GetMoviesByQuery(t, m.title, Some(DefaultLimit)) == matches;
  }

  /** Creating the same movie again conflicts, as long as the 100-row window still reaches the new row. */
  lemma RecreateConflicts(t: seq<Movie>, m: MovieIn)
    requires |Filter(t, x => ActiveMatch(x, m.title))| < DefaultLimit
    ensures HasDuplicate(Inserted(t, m), m)
  {
    var row := NewRow(|t|, m);
    ContainsIgnoreCaseSelf(m.title);
    FilterAppend(t, row, x => ActiveMatch(x, m.title));
    var matches := Filter(Inserted(t, m), x => ActiveMatch(x, m.title));
    assert row in matches;
    assert GetMoviesByQuery(Inserted(t, m), m.title, Some(DefaultLimit)) == matches;
  }

  /** The rule is directional: "Movie" clashes with a stored "Movie 2", not the other way round. */
  lemma DuplicateIsDirectional()
    ensures HasDuplicate([Movie(1, "Movie 2", Some(8.0), 2000, 1, true)], MovieIn("Movie", Some(8.0), 2000, 1))
    ensures !HasDuplicate([Movie(1, "Movie", Some(8.0), 2000, 1, true)], MovieIn("Movie 2", Some(8.0), 2000, 1))
  {
    var stored2 := Movie(1, "Movie 2", Some(8.0), 2000, 1, true);
    assert Lower("Movie") == "movie";
    assert Lower("Movie 2") == "movie 2";
    assert ContainsIgnoreCase(stored2.title, "Movie");
    assert GetMoviesByQuery([stored2], "Movie", Some(DefaultLimit)) == [stored2];
    var stored1 := Movie(1, "Movie", Some(8.0), 2000, 1, true);
    IsSubstringIff("movie 2", "movie");
    assert !ContainsIgnoreCase(stored1.title, "Movie 2");
    assert GetMoviesByQuery([stored1], "Movie 2", Some(DefaultLimit)) == [];
  }

  // ---------------------------------------------------------------------
  // Mutating endpoints
  // ---------------------------------------------------------------------

  /** POST /api/v1/movies/: duplicate check, then rating check, then insert. */
  method CreateMovie(store: MovieStore, m: MovieIn) returns (resp: Response)
    requires store.Valid()
    modifies store
    ensures store.Valid() && store.genres == old(store.genres)
    ensures resp.status == 409 <==> HasDuplicate(old(store.movies), m)
    ensures resp.status == 409 ==> resp.body == Detail(AlreadyAdded)
    ensures resp.status == 500 <==> !HasDuplicate(old(store.movies), m) && m.rating.None?
    ensures resp.status == 500 ==> resp.body == Detail(InternalError)
    ensures resp.status == 400 <==>
              !HasDuplicate(old(store.movies), m) && m.rating.Some? && RatingOutOfRange(m.rating.value)
    ensures resp.status == 400 ==> resp.body == Detail(BadRating)
    ensures resp.status in {201, 400, 409, 500}
    ensures resp.status == 201 ==> resp.body == Row(NewRow(|old(store.movies)|, m))
    ensures store.movies == if resp.status == 201 then Inserted(old(store.movies), m) else old(store.movies)
  {
    var dup := FindDuplicate(store.movies, m);
    if dup {
      return Response(409, Detail(AlreadyAdded));
    }
    if m.rating.None? {
      return Response(500, Detail(InternalError));
    }
    if RatingOutOfRange(m.rating.value) {
      return Response(400, Detail(BadRating));
    }
    var row := store.CreateMovie(m);
    resp := Response(201, Row(row));
  }

  /**
   * PUT /api/v1/movies/{id}: 404 for a missing row, then the rating check
   * (the title already set on the session row is discarded with it), then
   * all four fields replaced.
   */
  method UpdateMovie(store: MovieStore, id: int, m: MovieIn) returns (resp: Response)
    requires store.Valid()
    modifies store
    ensures store.Valid() && store.genres == old(store.genres)
    ensures !IsLive(old(store.movies), id) ==> resp == Response(404, Detail(MissingMovie(id)))
    ensures IsLive(old(store.movies), id) && m.rating.None? ==> resp == Response(500, Detail(InternalError))
    ensures IsLive(old(store.movies), id) && m.rating.Some? && RatingOutOfRange(m.rating.value) ==>
              resp == Response(400, Detail(BadRating))
    ensures resp.status == 200 <==>
              IsLive(old(store.movies), id) && m.rating.Some? && !RatingOutOfRange(m.rating.value)
    ensures resp.status == 200 ==> resp.body == Row(Movie(id, m.title, m.rating, m.year, m.genreId, true))
    ensures store.movies == if resp.status == 200 then Replaced(old(store.movies), id, m) else old(store.movies)
  {
    var found := GetMovieById(store.movies, id);
    GetMovieByIdAt(store.movies, id);
    if found.None? {
      return Response(404, Detail(MissingMovie(id)));
    }
    var row := found.value.(title := m.title);
    if m.rating.None? {
      return Response(500, Detail(InternalError));
    }
    if RatingOutOfRange(m.rating.value) {
      return Response(400, Detail(BadRating));
    }
    row := row.(rating := m.rating);
    row := row.(year := m.year);
    row := row.(genreId := m.genreId);
    var r := store.UpdateMovieComplete(id, MovieIn(row.title, row.rating, row.year, row.genreId));
    resp := Response(200, Row(r.value));
  }

  /** The query parameters of PATCH as the truthy-guarded input: an absent field is a falsy one. */
  function PatchRequest(title: Option<string>, rating: Option<real>, year: Option<int>, genreId: Option<int>): MovieIn {
    MovieIn(title.GetOr(""), rating, year.GetOr(0), genreId.GetOr(0))
  }

  /**
   * PATCH /api/v1/movies/{id}: 404 for a missing row; a truthy rating out of
   * range is 400 with nothing committed; otherwise only truthy fields change.
   */
  method PartialUpdateMovie(store: MovieStore, id: int, title: Option<string>, rating: Option<real>,
                            year: Option<int>, genreId: Option<int>) returns (resp: Response)
    requires store.Valid()
    modifies store
    ensures store.Valid() && store.genres == old(store.genres)
    ensures !IsLive(old(store.movies), id) ==> resp == Response(404, Detail(MissingMovie(id)))
    ensures IsLive(old(store.movies), id) && RatingGiven(rating) && RatingOutOfRange(rating.value) ==>
              resp == Response(400, Detail(BadRating))
    ensures resp.status == 200 <==>
              IsLive(old(store.movies), id) && !(RatingGiven(rating) && RatingOutOfRange(rating.value))
    ensures resp.status == 200 ==>
              resp.body == Row(Patched(old(store.movies)[id - 1], PatchRequest(title, rating, year, genreId)))
    ensures store.movies == if resp.status == 200
                            then PatchedTable(old(store.movies), id, PatchRequest(title, rating, year, genreId))
                            else old(store.movies)
  {
    var found := GetMovieById(store.movies, id);
    GetMovieByIdAt(store.movies, id);
    if found.None? {
      return Response(404, Detail(MissingMovie(id)));
    }
    var row := found.value;
    if title.Some? && title.value != "" {
      row := row.(title := title.value);
    }
    if RatingGiven(rating) {
      if RatingOutOfRange(rating.value) {
        return Response(400, Detail(BadRating));
      }
      row := row.(rating := rating);
    }
    if year.Some? && year.value != 0 {
      row := row.(year := year.value);
    }
    if genreId.Some? && genreId.value != 0 {
      row := row.(genreId := genreId.value);
    }
    PatchWithPatchedValues(found.value, PatchRequest(title, rating, year, genreId));
    var r := store.UpdateMoviePartial(id, MovieIn(row.title, row.rating, row.year, row.genreId));
    resp := Response(200, Row(r.value));
  }

  /** DELETE /api/v1/movies/{id}: 404 for a missing row, else soft delete and answer with the row. */
  method DeleteMovie(store: MovieStore, id: int) returns (resp: Response)
    requires store.Valid()
    modifies store
    ensures store.Valid() && store.genres == old(store.genres)
    ensures !IsLive(old(store.movies), id) ==> resp == Response(404, Detail(MissingMovie(id)))
    ensures IsLive(old(store.movies), id) ==> resp == Response(200, Row(old(store.movies)[id - 1].(isActive := false)))
    ensures store.movies == SoftDeleted(old(store.movies), id)
  {
    var found := GetMovieById(store.movies, id);
    GetMovieByIdAt(store.movies, id);
    if found.None? {
      return Response(404, Detail(MissingMovie(id)));
    }
    var r := store.DeleteMovie(id);
    resp := Response(200, Row(r.value));
  }

  // ---------------------------------------------------------------------
  // Read endpoints
  // ---------------------------------------------------------------------

  /**
   * GET /api/v1/movies/: with a non-empty `q`, the matching active rows or
   * 404 when there are none; otherwise the active rows, possibly none, with 200.
   */
  function QueryMovies(t: seq<Movie>, q: Option<string>, limit: Option<nat>): (resp: Response)
    ensures resp.status == 404 <==> q.Some? && q.value != "" && GetMoviesByQuery(t, q.value, limit) == []
    ensures resp.status == 404 ==> resp.body == Detail(NoMovieFound)
    ensures resp.status != 404 ==> resp.status == 200 && resp.body.Rows?
    ensures resp.body.Rows? ==> forall x :: x in resp.body.movies ==> x in t && x.isActive
    ensures resp.body.Rows? && q.Some? && q.value != "" ==>
              forall x :: x in resp.body.movies ==> ContainsIgnoreCase(x.title, q.value)
    ensures resp.body.Rows? && limit.Some? ==> |resp.body.movies| <= limit.value
    ensures resp.status == 200 && q.Some? && q.value != "" ==> resp.body == Rows(GetMoviesByQuery(t, q.value, limit))
    ensures q.None? || q.value == "" ==> resp == Response(200, Rows(GetMovies(t, limit)))
    ensures limit.None? && resp.body.Rows? ==>
              forall x :: x in t && x.isActive && (q.None? || ContainsIgnoreCase(x.title, q.value)) ==> x in resp.body.movies
  {
    if q.Some? && q.value != "" then
      var rows := GetMoviesByQuery(t, q.value, limit);
      if rows == [] then Response(404, Detail(NoMovieFound)) else Response(200, Rows(rows))
    else
      Response(200, Rows(GetMovies(t, limit)))
  }

  /** GET /api/v1/movies/{id}: the active row with that id, or 404. */
  function GetMovie(t: seq<Movie>, id: int): (resp: Response)
    ensures resp.status == 200 ==> resp.body.Row? && resp.body.movie in t && resp.body.movie.id == id && resp.body.movie.isActive
    ensures resp.status != 200 ==>
              resp == Response(404, Detail(MissingMovie(id))) && forall x :: x in t ==> !(x.id == id && x.isActive)
  {
    match GetMovieById(t, id)
    case None => Response(404, Detail(MissingMovie(id)))
    case Some(row) => Response(200, Row(row))
  }

  /** GET /api/v1/genres: always 200, with exactly the active genres. */
  function GetGenresList(g: seq<Genre>): (resp: Response)
    ensures resp.status == 200 && resp.body.GenreRows?
    ensures forall x :: x in resp.body.genres <==> x in g && x.isActive
    ensures resp.body.genres == GetGenres(g)
  {
    Response(200, GenreRows(GetGenres(g)))
  }

  // ---------------------------------------------------------------------
  // Requests in sequence
  // ---------------------------------------------------------------------

  /** A created movie is then served by GET under the id the store gave it. */
  lemma CreateThenGet(t: seq<Movie>, m: MovieIn)
    requires RowIdsArePositions(t)
    ensures GetMovie(Inserted(t, m), |t| + 1) == Response(200, Row(NewRow(|t|, m)))
  {
    InsertedLookup(t, m);
  }

  /** After a delete, GET by that id answers 404 and a second delete finds no live row. */
  lemma DeleteThenGet(t: seq<Movie>, id: int)
    requires RowIdsArePositions(t)
    ensures GetMovie(SoftDeleted(t, id), id) == Response(404, Detail(MissingMovie(id)))
    ensures !IsLive(SoftDeleted(t, id), id)
  {
    SoftDeletedLookup(t, id);
  }

  /** After a complete update, GET by that id serves the new values. */
  lemma UpdateThenGet(t: seq<Movie>, id: int, m: MovieIn)
    requires RowIdsArePositions(t) && IsLive(t, id)
    ensures GetMovie(Replaced(t, id, m), id) == Response(200, Row(Movie(id, m.title, m.rating, m.year, m.genreId, true)))
  {
    ReplacedLookup(t, id, m);
  }
}
