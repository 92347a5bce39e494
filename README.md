# Movie catalogue store and handlers, modelled in Dafny

This project models the core of a small movie-catalogue REST service. The
service keeps two tables, `movies` and `genres`. Rows are never removed: a
delete clears the row's `is_active` flag, and every lookup, update and
delete skips inactive rows. The HTTP handlers check for duplicates and
validate the rating before they call the store, and they map each outcome
to a status code and a body.

- `wrappers.dfy`: `Option`, which stands for Python's `None`.
- `models.dfy`: the `Movie` and `Genre` rows and the `MovieBase` request body (`MovieIn`).
- `text.dfy`: ASCII lower-casing, the case-insensitive substring test behind `ilike '%q%'`, and decimal rendering of ids for error details.
- `queries.dfy`: the store. Each query and each mutation is a pure function of the table. The `MovieStore` class holds the two tables as `seq` fields and changes them in place. Its methods are proved against those functions.
- `handlers.dfy`: one member per endpoint. The mutating endpoints are methods over a `MovieStore`. The read endpoints are functions of the table at request time. The file ends with lemmas about request sequences.
- `apitests.dfy`: the expectations of `unit_tests/api_tests.py`, one member per modelled test. Each builds the tables that test's setup leaves (the rows the test adds directly: genre "Action" and some movies, or nothing for the empty listing) and makes the test's single request. A longer sequence (create, list, patch, delete, then GET and a second DELETE) closes the file.

A row's id is its position plus one. This holds because the tables only grow and SQLite gives an integer primary key the next value. `MovieStore.Valid()` keeps this invariant. Ratings are exact reals. A missing rating reaching a `rating < 0` comparison raises in Python, so the model answers 500 with the framework's "Internal Server Error".

## Model

| member | source | states |
|---|---|---|
| Text.IsSubstringIff | sql_app/db_queries.py:70 | the substring test used for `%q%` holds exactly when `q` occurs at some position of the title |
| Text.ContainsIgnoreCaseSelf | sql_app/db_queries.py:70 | every title matches itself as a query, whatever its letter case |
| Text.ContainsEmptyQuery | sql_app/db_queries.py:70 | the empty query matches every title |
| Text.NatText | sql_app/main.py:46 | the rendered id is a non-empty run of decimal digits with no leading zero |
| Text.NatTextRoundTrip | sql_app/main.py:46 | reading the rendered digits back gives the id |
| Text.IntText | sql_app/main.py:46 | the rendering is non-empty and starts with '-' exactly for negative ids |
| Text.IntTextRoundTrip | sql_app/main.py:46 | the digits after the optional '-' read back as the absolute value of the id |
| Queries.Filter | sql_app/db_queries.py:66 | a filtered result holds exactly the rows that pass the test, and is never longer than the table |
| Queries.FilterCount | sql_app/db_queries.py:100 | a filtered result holds each passing row exactly as often as the table does, and no other row |
| Queries.FilterAppend | sql_app/db_queries.py:66 | filtering keeps table order: a new row is listed after all older rows |
| Queries.Limit | sql_app/db_queries.py:65-70 | `LIMIT n` returns a prefix of length min(n, rows); no limit returns every row |
| Queries.GetMovieById | sql_app/db_queries.py:61-62 | a found row has the id and is active; when nothing is found, no active row has the id |
| Queries.GetMovieByIdAt | sql_app/db_queries.py:61-62 | with positional ids, the lookup returns the row at id-1 exactly when that row is active |
| Queries.GetMovies | sql_app/db_queries.py:65-66 | the first min(limit, k) of the k active rows in table order; with no limit, every active row |
| Queries.GetMoviesByQuery | sql_app/db_queries.py:69-70 | the first min(limit, k) of the k active rows whose title contains `q` ignoring case, in table order; with no limit, all of them |
| Queries.GetMoviesLimited | sql_app/db_queries.py:65-66 | a limited listing is a prefix of the unlimited listing, of length min(limit, its length) |
| Queries.GetMoviesByQueryLimited | sql_app/db_queries.py:69-70 | a limited search is a prefix of the unlimited search, of length min(limit, its length) |
| Queries.GetMoviesAppend | sql_app/db_queries.py:65-66 | listing returns rows in insertion order, so ids 1 and 2 come back as 1, 2 |
| Queries.GetMoviesByQueryAppend | sql_app/db_queries.py:69-70 | search results come back in insertion order: a new matching row is listed after all older ones |
| Queries.EmptyQueryListsAll | sql_app/db_queries.py:65-70 | an empty query lists exactly what the unfiltered listing lists |
| Queries.GetGenres | sql_app/db_queries.py:99-100 | the result holds exactly the active genres, each as often as in the table |
| Queries.GetGenresAppend | sql_app/db_queries.py:99-100 | genres come back in insertion order: a new active genre is listed after all older ones |
| Queries.GetGenresAllActive | sql_app/db_queries.py:99-100 | a table of active genres is listed whole, in table order |
| Queries.InsertedLookup | sql_app/db_queries.py:5-15 | an insert keeps ids positional, makes the new row findable under the next id, and changes no other lookup |
| Queries.ReplacedLookup | sql_app/db_queries.py:18-29 | a complete update makes a live row carry all four inputs, zero and empty included; an absent or inactive id changes nothing; other ids are untouched |
| Queries.PatchedLookup | sql_app/db_queries.py:32-47 | a partial update on a live row yields the patched row; an absent or inactive id changes nothing; other ids are untouched |
| Queries.PatchedKeepsIdentity | sql_app/db_queries.py:32-47 | a partial update never changes id or the active flag |
| Queries.PatchNothing | sql_app/db_queries.py:36-43 | an input whose fields are all falsy (empty title, rating absent or 0, year 0, genre id 0) leaves the row unchanged |
| Queries.PatchZeroRatingSkipped | sql_app/db_queries.py:38-39 | a rating of 0 is skipped exactly like an absent one, so the stored rating stays |
| Queries.PatchIdempotent | sql_app/db_queries.py:36-43 | applying the same partial update twice equals applying it once |
| Queries.PatchWithPatchedValues | sql_app/main.py:64-76 | sending the session row, already patched by the handler, through the partial update gives that same row |
| Queries.FullPatchIsReplace | sql_app/db_queries.py:18-47 | when every field is truthy, the partial and the complete update give the same table |
| Queries.SoftDeletedLookup | sql_app/db_queries.py:50-58 | delete keeps every row and every field except the flag of the live row; afterwards that id is not found; other lookups are unchanged |
| Queries.SoftDeleteTwice | sql_app/db_queries.py:50-58 | a second delete of the same id changes nothing |
| Queries.PopulateEmpty | sql_app/db_queries.py:73-96 | seeding an empty table yields the 19 named genres, active, with ids 1 to 19 |
| Queries.PopulateEmptyListed | sql_app/db_queries.py:73-100 | every seeded genre is active, so `get_genres` lists the whole seed |
| Queries.PopulateIdempotent | sql_app/db_queries.py:73-74 | seeding twice equals seeding once, and a table with any rows (active or not) is left alone |
| Queries.PopulateKeepsIds | sql_app/db_queries.py:73-96 | seeding keeps genre ids positional |
| Queries.MovieStore.CreateMovie | sql_app/db_queries.py:5-15 | appends exactly one active row with the next id and the given fields; existing rows and genres are unchanged |
| Queries.MovieStore.UpdateMovieComplete | sql_app/db_queries.py:18-29 | on a live id, all four fields are overwritten and the row is returned; otherwise None and the table is unchanged |
| Queries.MovieStore.UpdateMoviePartial | sql_app/db_queries.py:32-47 | on a live id, only truthy fields are overwritten and the row is returned; otherwise None and the table is unchanged |
| Queries.MovieStore.DeleteMovie | sql_app/db_queries.py:50-58 | on a live id, only the active flag is cleared and the row is returned with its other fields; otherwise None and nothing changes |
| Queries.MovieStore.PopulateGenres | sql_app/db_queries.py:73-96 | the genre table becomes the seed when it had no rows, else stays as it was; movies are unchanged |
| Handlers.FindDuplicate | sql_app/main.py:29-33 | the scan reports a duplicate exactly when one of the first 100 title matches has the incoming year |
| Handlers.DuplicateIsClash | sql_app/main.py:29-33 | every reported duplicate is an active row whose title contains the incoming title, in the same year |
| Handlers.DuplicateWithinWindow | sql_app/main.py:29-33 | while at most 100 active titles match, the rule catches exactly the active same-year rows whose title contains the incoming one |
| Handlers.RecreateConflicts | sql_app/main.py:29-38 | creating the same movie again is a duplicate, as long as fewer than 100 active titles matched before |
| Handlers.DuplicateIsDirectional | sql_app/main.py:29-33 | new "Movie" clashes with stored "Movie 2" in the same year, but new "Movie 2" does not clash with stored "Movie" |
| Handlers.CreateMovie | sql_app/main.py:27-38 | 409 exactly on a duplicate, checked first; then 500 for a missing rating and 400 for a rating outside [0,10]; else 201 with the new row appended; the store changes only on 201 |
| Handlers.UpdateMovie | sql_app/main.py:41-55 | 404 "Missing movie with id N" for an absent or inactive id; 500 for a missing rating; 400 for an out-of-range rating, with nothing committed; else 200 with all four fields replaced |
| Handlers.PartialUpdateMovie | sql_app/main.py:58-76 | 404 for an absent id; 400 only for a truthy out-of-range rating, with nothing committed; else 200 with only the truthy fields changed |
| Handlers.DeleteMovie | sql_app/main.py:79-85 | 404 for an absent or inactive id; else 200 with the row's last values and the row soft-deleted |
| Handlers.QueryMovies | sql_app/main.py:88-97 | a non-empty `q` with no matches gives 404, else 200 with exactly the store's search result for `q` and `limit`; without `q` (or with an empty one), 200 with exactly the store's listing, even when empty |
| Handlers.GetMovie | sql_app/main.py:100-106 | 200 with the active row that has the id, else 404 "Missing movie with id N" and no active row has that id |
| Handlers.GetGenresList | sql_app/main.py:109-112 | always 200, and the body is exactly the store's genre listing: each active genre once per row, in table order |
| Handlers.CreateThenGet | sql_app/main.py:27-38 | a created movie is then served by GET under the id the store assigned |
| Handlers.DeleteThenGet | sql_app/main.py:79-85 | after a delete, GET by that id gives 404 and a second delete finds no live row |
| Handlers.UpdateThenGet | sql_app/main.py:41-55 | after a complete update, GET by that id serves the new values |
| ApiTests.ReplayGetNoMovies | unit_tests/api_tests.py:62-65 | listing an empty table answers an empty list, with the 200 the handler sets |
| ApiTests.ReplayGetMoviesList | unit_tests/api_tests.py:68-78 | listing two rows answers both, ids 1 then 2 |
| ApiTests.ReplayCreateNewMovie | unit_tests/api_tests.py:81-88 | creating "Movie 1" answers 201 with id 1 and the given fields |
| ApiTests.ReplayUpdateComplete | unit_tests/api_tests.py:100-108 | PUT on movie 1 answers 200 with all four fields replaced |
| ApiTests.ReplayUpdatePartial | unit_tests/api_tests.py:111-119 | PATCH with every parameter given answers 200 with all four fields changed |
| ApiTests.ReplayDeleteMovie | unit_tests/api_tests.py:131-144 | DELETE of movie 1 answers 200 with its last values |
| ApiTests.ReplayDeleteMissing | unit_tests/api_tests.py:147-159 | DELETE of id 2 answers 404 "Missing movie with id 2" |
| ApiTests.ReplayGetMovieById | unit_tests/api_tests.py:162-169 | GET of movie 1 answers 200 with the row |
| ApiTests.ReplayQueryMovies | unit_tests/api_tests.py:172-182 | searching "Movie" answers both rows in insertion order |
| ApiTests.ReplayQueryAndLimit | unit_tests/api_tests.py:185-194 | searching "Movie" with limit 1 answers only the first row |
| ApiTests.ReplayGetAllGenres | unit_tests/api_tests.py:197-206 | listing genres answers Action then Comedy |
| ApiTests.DeleteSequence | sql_app/main.py:27-106 | after create, list, patch and delete through the handlers, GET and a second DELETE of that id both answer 404 |

## Left out

- HTTP routing, dependency injection, the `Response` object and the framework's request validation (the 422 for a body missing `genre_id`). Each handler takes already-typed arguments.
- Engine setup, the session lifecycle, commit/refresh/rollback and the startup hook (sql_app/main.py:7-24). Each handler is one atomic step over the store. A raised error commits nothing.
- JSON serialisation: a body carries the whole row, active flag included, where the response schema shows only `{id, title, rating, year, genre_id}`.
- sql_app/log_config.py: a static logging configuration with no logic.
- Bearer-token authentication on DELETE, and the 401 and token endpoints that the tests expect. The handler modelled here has no authentication. Token signing and password hashing are calls into cryptographic libraries.
- The 204 status that the tests expect for an empty listing. The handler sets 200, and the model follows the handler.
- Float and `Numeric(1,2)` storage precision of the rating. Ratings are exact reals, so a NaN rating is not modelled: the source accepts one in create, PUT and PATCH, because `nan < 0` and `nan > 10` are both false (sql_app/main.py:34, 48, 67).
- The authentication test (unit_tests/api_tests.py:122-128) and the token requests inside the delete tests, for the reason above; the delete replays make only the DELETE request.
- The SQL `LIKE` wildcard meaning of `%` and `_` inside `q`, and Unicode case folding. The query is a plain substring test with ASCII lower-casing.
- The `String(20)` column lengths, which SQLite does not enforce.
- Integers beyond SQLite's 64-bit INTEGER range. The model's ids, years and genre ids are unbounded. In the source, binding such a value raises `OverflowError`, and the request answers 500. So the model answers 404 where the source answers 500 for GET or DELETE of an id of 2^63 or more (sql_app/main.py:81, 102). It answers 201 or 200 where the source answers 500 for create or PUT with a year or genre id outside the range (sql_app/db_queries.py:5-15, 18-29).
- Negative `limit` values. `limit` is `Option<nat>`, and `None` means unbounded, as the handlers pass it.
- Result order beyond insertion order. No `ORDER BY` is issued, and the model lists rows in table order.
- Genre deletion and the foreign-key link from `genre_id` to a genre row. No endpoint deletes genres, and the store does not check the link.
- Test fixtures and savepoint plumbing.
