/**
 * The entity store of sql_app/db_queries.py: a movies table and a genres
 * table whose rows are never physically removed, only flagged inactive.
 *
 * A row's id is its position plus one (SQLite's integer primary key on a
 * table that only ever grows). Every lookup filters on the active flag.
 * The pure functions below state what each query returns and what each
 * mutation leaves behind; the MovieStore class performs the mutations in
 * place and is proved against them.
 */
module Queries {
  import opened Wrappers
  import opened Models
  import opened Text

  /** The limit `get_movies` and `get_movies_by_query` apply when the caller passes none. */
  const DefaultLimit: nat := 100

  /** The seed list `populate_genres` inserts into an empty genres table. */
  const GenreNames: seq<string> := [
    "Action", "Adventure", "Animation", "Comedy", "Crime", "Documentary",
    "Drama", "Family", "Fantasy", "History", "Horror", "Music", "Mystery",
    "Romance", "Science Fiction", "TV Movie", "Thriller", "War", "Western"
  ]

  // ---------------------------------------------------------------------
  // Table shape
  // ---------------------------------------------------------------------

  ghost predicate RowIdsArePositions(t: seq<Movie>) {
    forall i :: 0 <= i < |t| ==> t[i].id == i + 1
  }

  ghost predicate GenreIdsArePositions(g: seq<Genre>) {
    forall i :: 0 <= i < |g| ==> g[i].id == i + 1
  }

  /** The row with this id exists and has not been soft-deleted. */
  predicate IsLive(t: seq<Movie>, id: int) {
    1 <= id <= |t| && t[id - 1].isActive
  }

  // ---------------------------------------------------------------------
  // Filtering and limiting
  // ---------------------------------------------------------------------

  /** The elements of `s` that satisfy `p`, in their original order. */
  function Filter<T(!new)>(s: seq<T>, p: T -> bool): (r: seq<T>)
    ensures |r| <= |s|
    ensures forall x :: x in r <==> x in s && p(x)
  {
    if s == [] then [] else Filter(s[..|s| - 1], p) + (if p(s[|s| - 1]) then [s[|s| - 1]] else [])
  }

  /** Filtering keeps each passing element exactly as often as it occurs, and drops every other. */
  lemma {:induction false} FilterCount<T(!new)>(s: seq<T>, p: T -> bool)
    ensures forall x :: multiset(Filter(s, p))[x] == if p(x) then multiset(s)[x] else 0
  {
    if s != [] {
      var init, last := s[..|s| - 1], s[|s| - 1];
      FilterCount(init, p);
      assert s == init + [last];
      assert multiset(s) == multiset(init) + multiset{last};
    }
  }

  /** Filtering a table that grew by one row filters the old table, then the new row. */
  lemma FilterAppend<T(!new)>(s: seq<T>, x: T, p: T -> bool)
    ensures Filter(s + [x], p) == Filter(s, p) + (if p(x) then [x] else [])
  {
    assert (s + [x])[..|s + [x]| - 1] == s;
  }

  /** A filter that every element passes keeps the whole sequence. */
  lemma {:induction false} FilterAll<T(!new)>(s: seq<T>, p: T -> bool)
    requires forall i :: 0 <= i < |s| ==> p(s[i])
    ensures Filter(s, p) == s
  {
    if s != [] {
      FilterAll(s[..|s| - 1], p);
    }
  }

  /** Two tests that agree everywhere select the same elements. */
  lemma {:induction false} FilterSame<T(!new)>(s: seq<T>, p: T -> bool, q: T -> bool)
    requires forall x :: p(x) == q(x)
    ensures Filter(s, p) == Filter(s, q)
  {
    if s != [] {
      FilterSame(s[..|s| - 1], p, q);
    }
  }

  /** How many of `k` rows a `LIMIT` lets through: all of them for `None`, else at most `n`. */
  function Capped(k: nat, limit: Option<nat>): nat {
    if limit.Some? && limit.value < k then limit.value else k
  }

  /** SQL `LIMIT`: `None` leaves the rows unbounded, `Some(n)` keeps the first `n`. */
  function Limit<T>(s: seq<T>, limit: Option<nat>): (r: seq<T>)
    ensures r <= s
    ensures |r| == Capped(|s|, limit)
    ensures limit.None? ==> r == s
  {
    match limit
    case None => s
    case Some(n) => if |s| <= n then s else s[..n]
  }

  predicate Active(m: Movie) {
    m.isActive
  }

  predicate ActiveMatch(m: Movie, q: string) {
    m.isActive && ContainsIgnoreCase(m.title, q)
  }

  // ---------------------------------------------------------------------
  // Read queries
  // ---------------------------------------------------------------------

  /** `get_movie_by_id`: the first active row with that id, if any. */
  function GetMovieById(t: seq<Movie>, id: int): (r: Option<Movie>)
    ensures r.Some? ==> r.value in t && r.value.id == id && r.value.isActive
    ensures r.None? ==> forall x :: x in t ==> !(x.id == id && x.isActive)
  {
    if t == [] then None
    else if t[0].id == id && t[0].isActive then Some(t[0])
    else GetMovieById(t[1..], id)
  }

  /** With ids equal to positions, the lookup finds exactly the live row at `id - 1`. */
  lemma GetMovieByIdAt(t: seq<Movie>, id: int)
    requires RowIdsArePositions(t)
    ensures GetMovieById(t, id) == if IsLive(t, id) then Some(t[id - 1]) else None
  {
    var r := GetMovieById(t, id);
    if r.Some? {
      var k :| 0 <= k < |t| && t[k] == r.value;
      assert k == id - 1;
    }
  }

  /** `get_movies`: the first `limit` active rows in table order (all of them without a limit). */
  function GetMovies(t: seq<Movie>, limit: Option<nat>): (r: seq<Movie>)
    ensures r <= Filter(t, Active)
    ensures |r| == Capped(|Filter(t, Active)|, limit)
    ensures forall x :: x in r ==> x in t && x.isActive
    ensures limit.None? ==> forall x :: x in t && x.isActive ==> x in r
  {
    var rows := Filter(t, Active);
    var r := Limit(rows, limit);
    assert forall x :: x in r ==> x in rows;
    r
  }

  /**
   * `get_movies_by_query`: the first `limit` active rows, in table order,
   * whose title contains `q` ignoring case (all of them without a limit).
   */
  function GetMoviesByQuery(t: seq<Movie>, q: string, limit: Option<nat>): (r: seq<Movie>)
    ensures r <= Filter(t, m => ActiveMatch(m, q))
    ensures |r| == Capped(|Filter(t, m => ActiveMatch(m, q))|, limit)
    ensures forall x :: x in r ==> x in t && x.isActive && ContainsIgnoreCase(x.title, q)
    ensures limit.None? ==> forall x :: x in t && x.isActive && ContainsIgnoreCase(x.title, q) ==> x in r
  {
    var rows := Filter(t, m => ActiveMatch(m, q));
    var r := Limit(rows, limit);
    assert forall x :: x in r ==> x in rows;
    r
  }

  /** A limit keeps the first rows of the unlimited listing. */
  lemma GetMoviesLimited(t: seq<Movie>, n: nat)
    ensures GetMovies(t, Some(n)) == GetMovies(t, None)[..Capped(|GetMovies(t, None)|, Some(n))]
  {
  }

  /** A limit keeps the first rows of the unlimited search. */
  lemma GetMoviesByQueryLimited(t: seq<Movie>, q: string, n: nat)
    ensures GetMoviesByQuery(t, q, Some(n)) ==
            GetMoviesByQuery(t, q, None)[..Capped(|GetMoviesByQuery(t, q, None)|, Some(n))]
  {
  }

  /** Rows come back in insertion order: a new row is listed after all older ones. */
  lemma GetMoviesAppend(t: seq<Movie>, x: Movie)
    ensures GetMovies(t + [x], None) == GetMovies(t, None) + (if x.isActive then [x] else [])
  {
    FilterAppend(t, x, Active);
  }

  /** Search results come back in insertion order too. */
  lemma GetMoviesByQueryAppend(t: seq<Movie>, q: string, x: Movie)
    ensures GetMoviesByQuery(t + [x], q, None) ==
            GetMoviesByQuery(t, q, None) + (if ActiveMatch(x, q) then [x] else [])
  {
    FilterAppend(t, x, m => ActiveMatch(m, q));
  }

  /** An empty query filters on the active flag alone, so it lists what `get_movies` lists. */
  lemma EmptyQueryListsAll(t: seq<Movie>, limit: Option<nat>)
    ensures GetMoviesByQuery(t, "", limit) == GetMovies(t, limit)
  {
    forall m: Movie
      ensures ActiveMatch(m, "") == Active(m)
    {
      ContainsEmptyQuery(m.title);
    }
    FilterSame(t, m => ActiveMatch(m, ""), Active);
  }

  /** `get_genres`: exactly the active genres, each as often as in the table, in table order. */
  function GetGenres(g: seq<Genre>): (r: seq<Genre>)
    ensures forall x :: x in r <==> x in g && x.isActive
    ensures forall x :: multiset(r)[x] == if x.isActive then multiset(g)[x] else 0
  {
    FilterCount(g, (x: Genre) => x.isActive);
    Filter(g, (x: Genre) => x.isActive)
  }

  /** Genres come back in insertion order. */
  lemma GetGenresAppend(g: seq<Genre>, x: Genre)
    ensures GetGenres(g + [x]) == GetGenres(g) + (if x.isActive then [x] else [])
  {
    FilterAppend(g, x, (y: Genre) => y.isActive);
  }

  /** A table of active genres is listed whole, in table order. */
  lemma GetGenresAllActive(g: seq<Genre>)
    requires forall i :: 0 <= i < |g| ==> g[i].isActive
    ensures GetGenres(g) == g
  {
    FilterAll(g, (y: Genre) => y.isActive);
  }

  // ---------------------------------------------------------------------
  // Mutations, as functions of the table before the call
  // ---------------------------------------------------------------------

  /** The row `create_movie` inserts into a table holding `n` rows. */
  function NewRow(n: nat, m: MovieIn): Movie {
    Movie(n + 1, m.title, m.rating, m.year, m.genreId, true)
  }

  /** `create_movie`: the table with one new active row at the end. */
  function Inserted(t: seq<Movie>, m: MovieIn): seq<Movie> {
    t + [NewRow(|t|, m)]
  }

  /** `update_movie_complete`: a live row gets all four fields, zero and empty values included. */
  function Replaced(t: seq<Movie>, id: int, m: MovieIn): seq<Movie> {
    if IsLive(t, id) then t[id - 1 := Movie(id, m.title, m.rating, m.year, m.genreId, true)] else t
  }

  /** Python truthiness of the optional rating: absent and zero are both false. */
  predicate RatingGiven(rating: Option<real>) {
    rating.Some? && rating.value != 0.0
  }

  /** A row after `update_movie_partial`'s truthy-guarded overwrites. */
  function Patched(row: Movie, m: MovieIn): Movie {
    row.(title := if m.title != "" then m.title else row.title,
         rating := if RatingGiven(m.rating) then m.rating else row.rating,
         year := if m.year != 0 then m.year else row.year,
         genreId := if m.genreId != 0 then m.genreId else row.genreId)
  }

  /** `update_movie_partial` on the table. */
  function PatchedTable(t: seq<Movie>, id: int, m: MovieIn): seq<Movie> {
    if IsLive(t, id) then t[id - 1 := Patched(t[id - 1], m)] else t
  }

  /** `delete_movie`: a live row has its active flag cleared, nothing else. */
  function SoftDeleted(t: seq<Movie>, id: int): seq<Movie> {
    if IsLive(t, id) then t[id - 1 := t[id - 1].(isActive := false)] else t
  }

  /** The 19 seed genres, with ids 1 to 19. */
  function SeedGenres(): seq<Genre> {
    seq(|GenreNames|, i requires 0 <= i < |GenreNames| => Genre(i + 1, GenreNames[i], true))
  }

  /** `populate_genres`: seed only a table with no rows at all, active or not. */
  function Populate(g: seq<Genre>): seq<Genre> {
    if |g| == 0 then SeedGenres() else g
  }

  // ---------------------------------------------------------------------
  // Properties of the mutations
  // ---------------------------------------------------------------------

  /** Insertion keeps ids positional, makes the new row findable under id |t|+1 and changes no other lookup. */
  lemma InsertedLookup(t: seq<Movie>, m: MovieIn)
    requires RowIdsArePositions(t)
    ensures RowIdsArePositions(Inserted(t, m))
    ensures GetMovieById(Inserted(t, m), |t| + 1) == Some(NewRow(|t|, m))
    ensures forall id :: id != |t| + 1 ==> GetMovieById(Inserted(t, m), id) == GetMovieById(t, id)
  {
    var t' := Inserted(t, m);
    GetMovieByIdAt(t', |t| + 1);
    forall id | id != |t| + 1
      ensures GetMovieById(t', id) == GetMovieById(t, id)
    {
      GetMovieByIdAt(t, id);
      GetMovieByIdAt(t', id);
    }
  }

  /** A complete update makes the live row carry exactly the input; other ids are untouched. */
  lemma ReplacedLookup(t: seq<Movie>, id: int, m: MovieIn)
    requires RowIdsArePositions(t)
    ensures RowIdsArePositions(Replaced(t, id, m)) && |Replaced(t, id, m)| == |t|
    ensures GetMovieById(Replaced(t, id, m), id) ==
              if IsLive(t, id) then Some(Movie(id, m.title, m.rating, m.year, m.genreId, true)) else None
    ensures forall other :: other != id ==> GetMovieById(Replaced(t, id, m), other) == GetMovieById(t, other)
  {
    var t' := Replaced(t, id, m);
    GetMovieByIdAt(t, id);
    GetMovieByIdAt(t', id);
    forall other | other != id
      ensures GetMovieById(t', other) == GetMovieById(t, other)
    {
      GetMovieByIdAt(t, other);
      GetMovieByIdAt(t', other);
    }
  }

  /** A partial update on a live row yields the patched row; other ids are untouched. */
  lemma PatchedLookup(t: seq<Movie>, id: int, m: MovieIn)
    requires RowIdsArePositions(t)
    ensures RowIdsArePositions(PatchedTable(t, id, m)) && |PatchedTable(t, id, m)| == |t|
    ensures GetMovieById(PatchedTable(t, id, m), id) ==
              if IsLive(t, id) then Some(Patched(t[id - 1], m)) else None
    ensures forall other :: other != id ==> GetMovieById(PatchedTable(t, id, m), other) == GetMovieById(t, other)
  {
    var t' := PatchedTable(t, id, m);
    GetMovieByIdAt(t, id);
    GetMovieByIdAt(t', id);
    forall other | other != id
      ensures GetMovieById(t', other) == GetMovieById(t, other)
    {
      GetMovieByIdAt(t, other);
      GetMovieByIdAt(t', other);
    }
  }

  /** A partial update never changes a row's id or active flag. */
  lemma PatchedKeepsIdentity(row: Movie, m: MovieIn)
    ensures Patched(row, m).id == row.id && Patched(row, m).isActive == row.isActive
  {
  }

  /** A request whose fields are all falsy changes nothing. */
  lemma PatchNothing(row: Movie, m: MovieIn)
    requires m.title == "" && !RatingGiven(m.rating) && m.year == 0 && m.genreId == 0
    ensures Patched(row, m) == row
  {
  }

  /** A rating of 0 is skipped exactly like an absent one: the stored rating stays. */
  lemma PatchZeroRatingSkipped(row: Movie, m: MovieIn)
    ensures Patched(row, m.(rating := Some(0.0))) == Patched(row, m.(rating := None))
    ensures Patched(row, m.(rating := Some(0.0))).rating == row.rating
  {
  }

  /** Applying the same partial update twice is the same as applying it once. */
  lemma PatchIdempotent(row: Movie, m: MovieIn)
    ensures Patched(Patched(row, m), m) == Patched(row, m)
  {
  }

  /**
   * Patching the original row with the values of an already patched copy
   * gives that copy: a field the copy left alone is falsy only if the
   * original's is, so it is skipped again.
   */
  lemma PatchWithPatchedValues(row: Movie, m: MovieIn)
    ensures var p := Patched(row, m);
            Patched(row, MovieIn(p.title, p.rating, p.year, p.genreId)) == p
  {
  }

  /** When every field is truthy, the partial and the complete update agree. */
  lemma FullPatchIsReplace(t: seq<Movie>, id: int, m: MovieIn)
    requires RowIdsArePositions(t)
    requires m.title != "" && RatingGiven(m.rating) && m.year != 0 && m.genreId != 0
    ensures PatchedTable(t, id, m) == Replaced(t, id, m)
  {
  }

  /**
   * Soft delete keeps every row and every field but the flag of the live
   * row `id`; afterwards `id` is no longer found and no other lookup changes.
   */
  lemma SoftDeletedLookup(t: seq<Movie>, id: int)
    requires RowIdsArePositions(t)
    ensures RowIdsArePositions(SoftDeleted(t, id)) && |SoftDeleted(t, id)| == |t|
    ensures forall i :: 0 <= i < |t| ==> SoftDeleted(t, id)[i].(isActive := t[i].isActive) == t[i]
    ensures GetMovieById(SoftDeleted(t, id), id) == None
    ensures forall other :: other != id ==> GetMovieById(SoftDeleted(t, id), other) == GetMovieById(t, other)
  {
    var t' := SoftDeleted(t, id);
    GetMovieByIdAt(t', id);
    forall other | other != id
      ensures GetMovieById(t', other) == GetMovieById(t, other)
    {
      GetMovieByIdAt(t, other);
      GetMovieByIdAt(t', other);
    }
  }

  /** A second delete of the same id changes nothing. */
  lemma SoftDeleteTwice(t: seq<Movie>, id: int)
    ensures SoftDeleted(SoftDeleted(t, id), id) == SoftDeleted(t, id)
  {
  }

  /** Seeding an empty table yields the 19 named genres, active, with ids 1 to 19. */
  lemma PopulateEmpty()
    ensures |Populate([])| == 19
    ensures GenreIdsArePositions(Populate([]))
    ensures forall i :: 0 <= i < 19 ==> Populate([])[i] == Genre(i + 1, GenreNames[i], true)
  {
  }

  /** Every seeded genre is active, so listing a freshly seeded table returns all of it. */
  lemma PopulateEmptyListed()
    ensures GetGenres(Populate([])) == SeedGenres()
  {
    var g := SeedGenres();
    assert forall i :: 0 <= i < |g| ==> g[i].isActive;
    FilterAll(g, (x: Genre) => x.isActive);
  }

  /** Running the seeding twice is the same as running it once, and a non-empty table is left alone. */
  lemma PopulateIdempotent(g: seq<Genre>)
    ensures Populate(Populate(g)) == Populate(g)
    ensures |g| > 0 ==> Populate(g) == g
  {
  }

  /** Seeding keeps genre ids positional. */
  lemma PopulateKeepsIds(g: seq<Genre>)
    requires GenreIdsArePositions(g)
    ensures GenreIdsArePositions(Populate(g))
  {
  }

  // ---------------------------------------------------------------------
  // The store, updated in place
  // ---------------------------------------------------------------------

  class MovieStore {
    var movies: seq<Movie>
    var genres: seq<Genre>

    ghost predicate Valid()
      reads this
    {
      RowIdsArePositions(movies) && GenreIdsArePositions(genres)
    }

    /** A fresh database: both tables empty. */
    constructor ()
      ensures Valid() && movies == [] && genres == []
    {
      movies := [];
      genres := [];
    }

    /** `create_movie`: append one active row with the next id and return it. */
    method CreateMovie(m: MovieIn) returns (row: Movie)
      requires Valid()
      modifies this
      ensures Valid()
      ensures row == NewRow(|old(movies)|, m)
      ensures movies == Inserted(old(movies), m) && genres == old(genres)
    {
      row := Movie(|movies| + 1, m.title, m.rating, m.year, m.genreId, true);
      movies := movies + [row];
    }

    /** `update_movie_complete`: overwrite all four fields of the live row `id`, or report none. */
    method UpdateMovieComplete(id: int, m: MovieIn) returns (r: Option<Movie>)
      requires Valid()
      modifies this
      ensures Valid() && genres == old(genres)
      ensures r.None? <==> !IsLive(old(movies), id)
      ensures r.Some? ==> r.value == Movie(id, m.title, m.rating, m.year, m.genreId, true)
      ensures movies == Replaced(old(movies), id, m)
    {
      var found := GetMovieById(movies, id);
      GetMovieByIdAt(movies, id);
      if found.None? {
        return None;
      }
      var row := found.value;
      row := row.(title := m.title);
      row := row.(rating := m.rating);
      row := row.(year := m.year);
      row := row.(genreId := m.genreId);
      movies := movies[id - 1 := row];
      r := Some(row);
    }

    /** `update_movie_partial`: overwrite only the truthy fields of the live row `id`, or report none. */
    method UpdateMoviePartial(id: int, m: MovieIn) returns (r: Option<Movie>)
      requires Valid()
      modifies this
      ensures Valid() && genres == old(genres)
      ensures r.None? <==> !IsLive(old(movies), id)
      ensures r.Some? ==> r.value == Patched(old(movies)[id - 1], m)
      ensures movies == PatchedTable(old(movies), id, m)
    {
      var found := GetMovieById(movies, id);
      GetMovieByIdAt(movies, id);
      if found.None? {
        return None;
      }
      var row := found.value;
      if m.title != "" {
        row := row.(title := m.title);
      }
      if RatingGiven(m.rating) {
        row := row.(rating := m.rating);
      }
      if m.year != 0 {
        row := row.(year := m.year);
      }
      if m.genreId != 0 {
        row := row.(genreId := m.genreId);
      }
      movies := movies[id - 1 := row];
      r := Some(row);
    }

    /** `delete_movie`: clear the active flag of the live row `id` and return it, or report none. */
    method DeleteMovie(id: int) returns (r: Option<Movie>)
      requires Valid()
      modifies this
      ensures Valid() && genres == old(genres)
      ensures r.None? <==> !IsLive(old(movies), id)
      ensures r.Some? ==> r.value == old(movies)[id - 1].(isActive := false)
      ensures movies == SoftDeleted(old(movies), id)
    {
      var found := GetMovieById(movies, id);
      GetMovieByIdAt(movies, id);
      if found.None? {
        return None;
      }
      var row := found.value.(isActive := false);
      movies := movies[id - 1 := row];
      r := Some(row);
    }

    /** `populate_genres`: seed the genres table when it has no rows. */
    method PopulateGenres()
      requires Valid()
      modifies this
      ensures Valid() && movies == old(movies)
      ensures genres == Populate(old(genres))
    {
      if |genres| == 0 {
        genres := SeedGenres();
      }
    }
  }
}
