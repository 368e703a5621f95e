# Movie catalogue core, in Dafny

This project models the core of a small ASP.NET movie catalogue, along with the properties its code promises:

- **The factory.** `Movie.Create` validates and normalises a new movie.
- **Three handlers.**
  - The create handler validates, refuses a duplicate (title, year), then creates and inserts.
  - The get-by-id handler looks a movie up.
  - The OMDb import handler walks an external search result. It skips entries whose year does not parse or whose (title, year) is already stored, and inserts the rest in order.
- **The result envelope** `Result<T>`.
- **The two validators.**
- **The controller's `ToActionResult`**, together with the success response each action picks.

The store is the `movies` table as `MovieRepository`'s SQL defines it:
- a sequence of rows;
- an exact title-and-year existence test;
- a first-match lookup by id;
- an append.

It is a `class` whose `Create` method changes its `rows`. The external search is an input sequence. `DateTime.UtcNow.Year` is an `int` parameter. `Guid.NewGuid()` is a parameter drawn from version-4 Guids, which are never `Guid.Empty`; the import takes one Guid per search position.

Modules, one per source file or concept:

- **`Text`**: the .NET string behaviour the code relies on: `char.IsWhiteSpace`, `Trim`, `Split(c)[0]`, 32-bit `int.TryParse`, `int.ToString`, `Contains`.
- **`Guids`**: `Guid`, the version-4 subset type, and the Guid's "D" text.
- **`Movies`**: `Movie.cs`.
- **`Dtos`**: `MovieResponse` and `OmdbMovieResult` with the projection.
- **`Repository`**: `MovieRepository`.
- **`Results`**: `Result.cs`.
- **`Validation`**: the failure list and the `GroupBy(...).ToDictionary(...)` both handlers apply.
- **`CreateMovieValidation`** and **`ImportValidation`**: the two validators.
- **`CreateMovie`**, **`GetMovieById`** and **`ImportMovies`**: the handlers.
- **`ImportProperties`**: what the import loop guarantees, stated without reference to the loop's own definition.
- **`ImportScenarios`**: how OMDb year texts parse, and the handler's unit-test searches.
- **`MoviesController`**: the controller.

The import loop comes in three forms:

- **`ImportMovies.Run`** is the loop as a recursive function.
- **`ImportMovies.ImportEntries`** is the `foreach` loop itself, as a method over the repository, proved equal to `Run`.
- **`ImportProperties`** states a trace over the search entries and proves it of `Run`. An inserted movie comes, one per entry and in order, from a subsequence of the entries. Every other entry reached has no parsable year or an already-stored (title, year). A throwing factory call ends the loop with the earlier inserts kept.

## Model

| member | source | states |
|---|---|---|
| Movies.Create | src/BoricuaCoder.CleanTemplate.Domain/Movies/Movie.cs:14-28 | Rejected exactly for a null/blank title or a year outside [1888, currentYear+5], with the title message taking precedence; otherwise the title is trimmed, the year kept, the IMDb id normalised, the id is the fresh Guid, and the movie is well formed |
| Movies.NormalizeImdbId | src/BoricuaCoder.CleanTemplate.Domain/Movies/Movie.cs:27 | absent exactly for a null or blank id; otherwise the input with exactly its leading and trailing white space removed, which is non-empty and trimmed |
| Movies.TitleMessageMentionsTitle | src/BoricuaCoder.CleanTemplate.Domain/Movies/Movie.cs:16-17 | the blank-title exception message contains "title" |
| Movies.YearMessageMentionsYear | src/BoricuaCoder.CleanTemplate.Domain/Movies/Movie.cs:19-20 | the year-range exception message contains "year" |
| Movies.YearBoundsInclusive | src/BoricuaCoder.CleanTemplate.Domain/Movies/Movie.cs:19 | 1888 and currentYear+5 are accepted, 1887 and currentYear+6 rejected |
| Guids.NewGuidIsNotEmpty | src/BoricuaCoder.CleanTemplate.Domain/Movies/Movie.cs:24 | a `Guid.NewGuid()` value is never `Guid.Empty` |
| Guids.GuidText | src/BoricuaCoder.CleanTemplate.Application/Movies/Queries/GetMovieById/GetMovieByIdQueryHandler.cs:21 | the interpolated id is 36 characters with dashes at 8, 13, 18 and 23 |
| Dtos.Project | src/BoricuaCoder.CleanTemplate.Application/Movies/Commands/CreateMovie/CreateMovieCommandHandler.cs:39 | the response carries the movie's id, title, year and IMDb id unchanged. Which movie is projected is stated by `CreateMovie.Decide`, `GetMovieById.Handle` and `ImportMovies.Import` |
| Text.TrimFacts | src/BoricuaCoder.CleanTemplate.Domain/Movies/Movie.cs:25 | `Trim` yields a substring with no white space at either end, everything removed being white space; empty exactly for all-white-space input |
| Text.TrimOfTrimmed | src/BoricuaCoder.CleanTemplate.Domain/Movies/Movie.cs:25 | a string with no surrounding white space trims to itself |
| Text.TrimIdempotent | src/BoricuaCoder.CleanTemplate.Domain/Movies/Movie.cs:25 | trimming twice is trimming once |
| Text.TrimUnique | src/BoricuaCoder.CleanTemplate.Domain/Movies/Movie.cs:25 | a trimmed string obtained from the input by removing only white space at its two ends is `Trim` of the input, so `Trim` is the one such string |
| Text.BeforeFirst | src/BoricuaCoder.CleanTemplate.Application/Movies/Commands/ImportMoviesFromOmdb/ImportMoviesFromOmdbCommandHandler.cs:50 | `Split(c)[0]` is a prefix free of `c`, followed by `c` when shorter than the input |
| Text.BeforeFirstAbsent | src/BoricuaCoder.CleanTemplate.Application/Movies/Commands/ImportMoviesFromOmdb/ImportMoviesFromOmdbCommandHandler.cs:50 | without the separator the whole string is kept |
| Text.BeforeFirstSplit | src/BoricuaCoder.CleanTemplate.Application/Movies/Commands/ImportMoviesFromOmdb/ImportMoviesFromOmdbCommandHandler.cs:50 | the text is cut at the first separator |
| Text.TryParseInt32 | src/BoricuaCoder.CleanTemplate.Application/Movies/Commands/ImportMoviesFromOmdb/ImportMoviesFromOmdbCommandHandler.cs:50 | a parsed value lies in the 32-bit range and comes from an optional sign followed by ASCII digits only |
| Text.IntToStringRoundTrip | src/BoricuaCoder.CleanTemplate.Application/Movies/Commands/ImportMoviesFromOmdb/ImportMoviesFromOmdbCommandHandler.cs:50 | `int.TryParse(n.ToString())` gives back every 32-bit `n` |
| Repository.FindById | src/BoricuaCoder.CleanTemplate.Infrastructure/Movies/MovieRepository.cs:17-24 | none exactly when no row has the id; otherwise the first row with that id |
| Repository.MovieRepository.GetById | src/BoricuaCoder.CleanTemplate.Infrastructure/Movies/MovieRepository.cs:17-24 | `GetByIdAsync` answers null exactly when no stored row has the id, and otherwise a stored row carrying that id |
| Repository.MovieRepository.ExistsByTitleAndYear | src/BoricuaCoder.CleanTemplate.Infrastructure/Movies/MovieRepository.cs:35-42 | `ExistsByTitleAndYearAsync` is true exactly when some stored movie has that exact title and that year |
| Repository.ExistsInExtension | src/BoricuaCoder.CleanTemplate.Infrastructure/Movies/MovieRepository.cs:35-42 | the existence test on an extended table is the disjunction over its two parts, so rows only ever added keep a (title, year) present |
| Repository.MovieRepository.Create | src/BoricuaCoder.CleanTemplate.Infrastructure/Movies/MovieRepository.cs:26-33 | the insert appends exactly one row and changes nothing else |
| Results.Result.Type | src/BoricuaCoder.CleanTemplate.Application/Common/Results/Result.cs:14 | each factory gives its own `ResultType`, in both directions |
| Results.Result.IsSuccess | src/BoricuaCoder.CleanTemplate.Application/Common/Results/Result.cs:26 | `IsSuccess` holds iff `Type == Success` |
| Results.Result.Value | src/BoricuaCoder.CleanTemplate.Application/Common/Results/Result.cs:28-35 | the value is present iff the result is a success, and is then the wrapped value |
| Results.Result.Error | src/BoricuaCoder.CleanTemplate.Application/Common/Results/Result.cs:28-38 | null iff success; the given message for NotFound and Conflict; "Validation failed." for ValidationError |
| Results.Result.ValidationErrors | src/BoricuaCoder.CleanTemplate.Application/Common/Results/Result.cs:28-38 | the map is present iff the type is ValidationError, and is then the given map |
| Validation.Check | src/BoricuaCoder.CleanTemplate.Application/Movies/Commands/CreateMovie/CreateMovieCommandValidator.cs:9-20 | a rule contributes at most one failure, and none exactly when it passes |
| Validation.GroupByProperty | src/BoricuaCoder.CleanTemplate.Application/Movies/Commands/CreateMovie/CreateMovieCommandHandler.cs:25-27 | the keys are exactly the failing properties; under each key stand that property's messages in reported order, never none |
| Validation.GroupByPropertyNonEmpty | src/BoricuaCoder.CleanTemplate.Application/Movies/Commands/CreateMovie/CreateMovieCommandHandler.cs:25-29 | a failing validation never yields an empty map |
| Validation.MessagesForEmpty | src/BoricuaCoder.CleanTemplate.Application/Movies/Commands/CreateMovie/CreateMovieCommandHandler.cs:26-27 | a property has no messages exactly when no failure names it |
| Validation.MessagesForConcat | src/BoricuaCoder.CleanTemplate.Application/Movies/Commands/CreateMovie/CreateMovieCommandHandler.cs:25-27 | the messages grouped under a property from two failure lists are those from the first, then those from the second |
| CreateMovieValidation.Validate | src/BoricuaCoder.CleanTemplate.Application/Movies/Commands/CreateMovie/CreateMovieCommandValidator.cs:7-21 | valid iff every rule passes; each (property, message) is reported exactly when its rule fails: blank title, title over 200, year outside [1888, currentYear+5], non-blank IMDb id not matching `^tt\d+$` |
| CreateMovieValidation.ValidateMessages | src/BoricuaCoder.CleanTemplate.Application/Movies/Commands/CreateMovie/CreateMovieCommandValidator.cs:9-20 | in the grouped form, Title holds "required" when blank and then "200 characters" when too long, in that order and each at most once; Year holds the range message exactly when out of range; ImdbId holds the format message exactly when a non-blank id does not match |
| CreateMovieValidation.BlankImdbIdNeverFails | src/BoricuaCoder.CleanTemplate.Application/Movies/Commands/CreateMovie/CreateMovieCommandValidator.cs:17-20 | a null or blank IMDb id never produces an ImdbId failure |
| CreateMovieValidation.ValidatedCommandIsCreatable | src/BoricuaCoder.CleanTemplate.Application/Movies/Commands/CreateMovie/CreateMovieCommandHandler.cs:22-36 | a command that passes validation is accepted by `Movie.Create` for the same current year |
| ImportValidation.Validate | src/BoricuaCoder.CleanTemplate.Application/Movies/Commands/ImportMoviesFromOmdb/ImportMoviesFromOmdbCommandValidator.cs:7-12 | valid iff the term is not blank and its raw length is at least 2; "required" is reported exactly for a blank term and "at least 2" exactly for a short one, both under SearchTerm |
| ImportValidation.ValidateMessages | src/BoricuaCoder.CleanTemplate.Application/Movies/Commands/ImportMoviesFromOmdb/ImportMoviesFromOmdbCommandValidator.cs:9-11 | SearchTerm holds "required" when blank and then "at least 2" when short, in that order and each at most once |
| ImportValidation.EmptyTermFailsTwice | src/BoricuaCoder.CleanTemplate.Application/Movies/Commands/ImportMoviesFromOmdb/ImportMoviesFromOmdbCommandValidator.cs:9-11 | "" fails both rules |
| ImportValidation.UntrimmedLengthCounts | src/BoricuaCoder.CleanTemplate.Application/Movies/Commands/ImportMoviesFromOmdb/ImportMoviesFromOmdbCommandValidator.cs:11 | the length is measured untrimmed: " a" passes although its trimmed text has one character |
| CreateMovie.Decide | src/BoricuaCoder.CleanTemplate.Application/Movies/Commands/CreateMovie/CreateMovieCommandHandler.cs:20-41 | ValidationError (the grouped failures) iff validation fails; Conflict (its message) iff valid and the untrimmed (title, year) is stored; otherwise Success with exactly one appended movie, trimmed and normalised by the factory, projected into the response; never NotFound; the table is unchanged on every non-success |
| CreateMovie.Handle | src/BoricuaCoder.CleanTemplate.Application/Movies/Commands/CreateMovie/CreateMovieCommandHandler.cs:20-41 | the handler on the repository returns `Decide`'s result and leaves `Decide`'s table |
| CreateMovie.ConflictMessageMentions | src/BoricuaCoder.CleanTemplate.Application/Movies/Commands/CreateMovie/CreateMovieCommandHandler.cs:34 | the conflict message contains "already exists" and the title as given |
| CreateMovie.PreservesWellFormed | src/BoricuaCoder.CleanTemplate.Application/Movies/Commands/CreateMovie/CreateMovieCommandHandler.cs:36-37 | a table of well-formed movies stays well formed |
| CreateMovie.PreservesDistinctIds | src/BoricuaCoder.CleanTemplate.Application/Movies/Commands/CreateMovie/CreateMovieCommandHandler.cs:36-37 | with a Guid not in the table, ids stay distinct |
| CreateMovie.SecondCreateConflicts | src/BoricuaCoder.CleanTemplate.Application/Movies/Commands/CreateMovie/CreateMovieCommandHandler.cs:32-37 | repeating a successful create whose title is already trimmed gives Conflict |
| CreateMovie.UntrimmedTitleDuplicates | src/BoricuaCoder.CleanTemplate.Application/Movies/Commands/CreateMovie/CreateMovieCommandHandler.cs:32-36 | " Inception" is accepted next to a stored "Inception" of 2010, leaving two rows with equal (title, year) |
| GetMovieById.Handle | src/BoricuaCoder.CleanTemplate.Application/Movies/Queries/GetMovieById/GetMovieByIdQueryHandler.cs:16-25 | always Success or NotFound; NotFound iff no row has the id, with the not-found message; Success carries the projection of the first row with the id |
| GetMovieById.NotFoundMessageMentions | src/BoricuaCoder.CleanTemplate.Application/Movies/Queries/GetMovieById/GetMovieByIdQueryHandler.cs:21 | the message contains the id's text and "not found" |
| GetMovieById.FindsStoredMovie | src/BoricuaCoder.CleanTemplate.Application/Movies/Queries/GetMovieById/GetMovieByIdQueryHandler.cs:18-24 | with distinct ids, a stored movie's id yields exactly its projection |
| GetMovieById.FindsAppended | src/BoricuaCoder.CleanTemplate.Application/Movies/Queries/GetMovieById/GetMovieByIdQueryHandler.cs:18-24 | a movie appended under a new id is found as itself |
| GetMovieById.CreateThenGet | src/BoricuaCoder.CleanTemplate.Application/Movies/Queries/GetMovieById/GetMovieByIdQueryHandler.cs:18-24 | after a successful create with a fresh Guid, looking up the returned id answers with the create's own response |
| ImportMovies.ParseYear | src/BoricuaCoder.CleanTemplate.Application/Movies/Commands/ImportMoviesFromOmdb/ImportMoviesFromOmdbCommandHandler.cs:50 | a parsed year lies in the 32-bit range |
| ImportMovies.Candidates | src/BoricuaCoder.CleanTemplate.Application/Movies/Commands/ImportMoviesFromOmdb/ImportMoviesFromOmdbCommandHandler.cs:48-57 | one candidate per search entry |
| ImportMovies.CandidateAt | src/BoricuaCoder.CleanTemplate.Application/Movies/Commands/ImportMoviesFromOmdb/ImportMoviesFromOmdbCommandHandler.cs:48-57 | candidate `i` is the parse and factory outcome of entry `i` with Guid `newGuid(i)` |
| ImportMovies.DecideEntry | src/BoricuaCoder.CleanTemplate.Application/Movies/Commands/ImportMoviesFromOmdb/ImportMoviesFromOmdbCommandHandler.cs:50-60 | an unparsable year continues; a stored untrimmed (title, year) continues; otherwise the factory's movie is inserted or its exception ends the loop. `ImportMovies.DecideEntryFacts` states this on the raw entry |
| ImportMovies.DecideEntryFacts | src/BoricuaCoder.CleanTemplate.Application/Movies/Commands/ImportMoviesFromOmdb/ImportMoviesFromOmdbCommandHandler.cs:50-60 | skipped for an unparsable year iff it does not parse; skipped as stored iff the untrimmed (title, year) is in the table; an insert carries the trimmed title, parsed year, normalised id and the entry's Guid, and is well formed; the factory throws iff the title is blank or the year out of range, with the matching message |
| ImportMovies.SkippableEntry | src/BoricuaCoder.CleanTemplate.Application/Movies/Commands/ImportMoviesFromOmdb/ImportMoviesFromOmdbCommandHandler.cs:50-55 | an entry is passed over iff its year does not parse or its (title, year) is stored, iff it neither inserts nor throws |
| ImportMovies.Run | src/BoricuaCoder.CleanTemplate.Application/Movies/Commands/ImportMoviesFromOmdb/ImportMoviesFromOmdbCommandHandler.cs:46-61 | the loop as a recursive function, defined by its body. `ImportProperties.RunShape`, `RunInserted`, `RunSkipped` and `RunIsTrace` state what it does, and `ImportProperties.TraceIsRun` shows that nothing else meets that description |
| ImportMovies.RunStopsAtFailure | src/BoricuaCoder.CleanTemplate.Application/Movies/Commands/ImportMoviesFromOmdb/ImportMoviesFromOmdbCommandHandler.cs:57 | after an exception no later entry changes the state |
| ImportMovies.RunStep | src/BoricuaCoder.CleanTemplate.Application/Movies/Commands/ImportMoviesFromOmdb/ImportMoviesFromOmdbCommandHandler.cs:48-61 | one iteration: a skip keeps the state, an insert appends the movie and its position, a throw is the final state |
| ImportMovies.NoMoviesMessageMentions | src/BoricuaCoder.CleanTemplate.Application/Movies/Commands/ImportMoviesFromOmdb/ImportMoviesFromOmdbCommandHandler.cs:43-44 | the message contains "No movies found" and the search term |
| ImportMovies.Import | src/BoricuaCoder.CleanTemplate.Application/Movies/Commands/ImportMoviesFromOmdb/ImportMoviesFromOmdbCommandHandler.cs:26-64 | the table only grows; validation failure gives the grouped errors and no change; NotFound iff valid and the search is empty; a success returns the projections of exactly the appended rows |
| ImportMovies.ProjectionsAppend | src/BoricuaCoder.CleanTemplate.Application/Movies/Commands/ImportMoviesFromOmdb/ImportMoviesFromOmdbCommandHandler.cs:60 | appending a movie appends its projection |
| ImportMovies.ImportEntry | src/BoricuaCoder.CleanTemplate.Application/Movies/Commands/ImportMoviesFromOmdb/ImportMoviesFromOmdbCommandHandler.cs:50-60 | the loop body decides as `DecideEntry` on the table as it stands, and appends exactly the inserted movie |
| ImportMovies.ImportEntries | src/BoricuaCoder.CleanTemplate.Application/Movies/Commands/ImportMoviesFromOmdb/ImportMoviesFromOmdbCommandHandler.cs:46-61 | the `foreach` loop leaves the table extended by the run's inserts, returns their projections, and reports the run's exception |
| ImportMovies.Handle | src/BoricuaCoder.CleanTemplate.Application/Movies/Commands/ImportMoviesFromOmdb/ImportMoviesFromOmdbCommandHandler.cs:26-64 | the handler on the repository has the outcome and leaves the table `Import` describes |
| ImportProperties.RunShape | src/BoricuaCoder.CleanTemplate.Application/Movies/Commands/ImportMoviesFromOmdb/ImportMoviesFromOmdbCommandHandler.cs:46-61 | inserts and positions match one to one; positions increase strictly and come before the stop |
| ImportProperties.RunInserted | src/BoricuaCoder.CleanTemplate.Application/Movies/Commands/ImportMoviesFromOmdb/ImportMoviesFromOmdbCommandHandler.cs:53-60 | each insert is the decision for its entry against the table extended by the inserts before it |
| ImportProperties.SkippableGrows | src/BoricuaCoder.CleanTemplate.Application/Movies/Commands/ImportMoviesFromOmdb/ImportMoviesFromOmdbCommandHandler.cs:53-55 | an entry skipped against a table is skipped against any extension of it |
| ImportProperties.RunSkipped | src/BoricuaCoder.CleanTemplate.Application/Movies/Commands/ImportMoviesFromOmdb/ImportMoviesFromOmdbCommandHandler.cs:50-55 | every entry reached and not inserted is skipped against the table as it stood when the loop reached it: the rows plus the inserts before it |
| ImportProperties.RunSkippedAtEnd | src/BoricuaCoder.CleanTemplate.Application/Movies/Commands/ImportMoviesFromOmdb/ImportMoviesFromOmdbCommandHandler.cs:50-55 | every entry reached and not inserted is also skipped against the final table |
| ImportProperties.RunFailure | src/BoricuaCoder.CleanTemplate.Application/Movies/Commands/ImportMoviesFromOmdb/ImportMoviesFromOmdbCommandHandler.cs:57 | a stopped run stops at an entry whose factory call throws that error |
| ImportProperties.RunIsTrace | src/BoricuaCoder.CleanTemplate.Application/Movies/Commands/ImportMoviesFromOmdb/ImportMoviesFromOmdbCommandHandler.cs:46-61 | the run meets the trace description up to where it stopped |
| ImportProperties.PicksFit | src/BoricuaCoder.CleanTemplate.Application/Movies/Commands/ImportMoviesFromOmdb/ImportMoviesFromOmdbCommandHandler.cs:46-61 | strictly increasing entry positions below `end` number at most `end` |
| ImportProperties.TraceIsRun | src/BoricuaCoder.CleanTemplate.Application/Movies/Commands/ImportMoviesFromOmdb/ImportMoviesFromOmdbCommandHandler.cs:46-61 | conversely, any trace over the first `end` entries is exactly the loop's state after them |
| ImportProperties.TraceDetermined | src/BoricuaCoder.CleanTemplate.Application/Movies/Commands/ImportMoviesFromOmdb/ImportMoviesFromOmdbCommandHandler.cs:46-61 | two traces over the same entries and stretch have the same inserts and positions |
| ImportProperties.RunAllSkipped | src/BoricuaCoder.CleanTemplate.Application/Movies/Commands/ImportMoviesFromOmdb/ImportMoviesFromOmdbCommandHandler.cs:48-55 | when every entry is skippable nothing is inserted and nothing throws |
| ImportProperties.TraceOfEntries | src/BoricuaCoder.CleanTemplate.Application/Movies/Commands/ImportMoviesFromOmdb/ImportMoviesFromOmdbCommandHandler.cs:48-60 | the candidate trace is a trace over the raw entries: year parses, (title, year) absent, fields from the entry |
| ImportProperties.EntriesOfTrace | src/BoricuaCoder.CleanTemplate.Application/Movies/Commands/ImportMoviesFromOmdb/ImportMoviesFromOmdbCommandHandler.cs:48-60 | conversely, a trace over the raw entries is the candidate trace |
| ImportProperties.ImportSucceeds | src/BoricuaCoder.CleanTemplate.Application/Movies/Commands/ImportMoviesFromOmdb/ImportMoviesFromOmdbCommandHandler.cs:46-63 | a completed import returns the projections of exactly its inserts, which come in order from a subsequence of the entries; every other entry is skipped against the table as it stood when reached, so the trace fixes which of two equal entries is inserted |
| ImportProperties.ImportOfCompleteTrace | src/BoricuaCoder.CleanTemplate.Application/Movies/Commands/ImportMoviesFromOmdb/ImportMoviesFromOmdbCommandHandler.cs:46-63 | conversely, for a valid term and a non-empty search, a trace over all entries is the import's outcome: success with the projections of its inserts, and the table extended by them |
| ImportProperties.ImportThrows | src/BoricuaCoder.CleanTemplate.Application/Movies/Commands/ImportMoviesFromOmdb/ImportMoviesFromOmdbCommandHandler.cs:53-58 | on an exception the inserts before it remain and form the trace up to an entry whose year parses, whose (title, year) is absent from the table as it then stood, and whose factory call throws that error |
| ImportProperties.ImportOfInterruptedTrace | src/BoricuaCoder.CleanTemplate.Application/Movies/Commands/ImportMoviesFromOmdb/ImportMoviesFromOmdbCommandHandler.cs:53-58 | conversely, a trace up to an entry whose year parses, whose (title, year) is absent and whose factory call throws is an import that throws that error and keeps the trace's inserts |
| ImportProperties.ValidationShortCircuits | src/BoricuaCoder.CleanTemplate.Application/Movies/Commands/ImportMoviesFromOmdb/ImportMoviesFromOmdbCommandHandler.cs:30-38 | invalid commands give ValidationError keyed by "SearchTerm" only, change no row, and do not depend on the search, the clock or the Guids |
| ImportProperties.EmptySearchNotFound | src/BoricuaCoder.CleanTemplate.Application/Movies/Commands/ImportMoviesFromOmdb/ImportMoviesFromOmdbCommandHandler.cs:42-44 | an empty search is NotFound with "No movies found" and the term, and changes no row |
| ImportProperties.AllSkippedIsEmptySuccess | src/BoricuaCoder.CleanTemplate.Application/Movies/Commands/ImportMoviesFromOmdb/ImportMoviesFromOmdbCommandHandler.cs:42-63 | a non-empty search whose entries are all skipped is Success with an empty list, not NotFound |
| ImportProperties.InsertedIsWellFormed | src/BoricuaCoder.CleanTemplate.Application/Movies/Commands/ImportMoviesFromOmdb/ImportMoviesFromOmdbCommandHandler.cs:57 | an inserted movie is well formed |
| ImportProperties.ImportPreservesWellFormed | src/BoricuaCoder.CleanTemplate.Application/Movies/Commands/ImportMoviesFromOmdb/ImportMoviesFromOmdbCommandHandler.cs:57-58 | a table of well-formed movies stays well formed, also when the import throws |
| ImportProperties.ReimportInsertsNothing | src/BoricuaCoder.CleanTemplate.Application/Movies/Commands/ImportMoviesFromOmdb/ImportMoviesFromOmdbCommandHandler.cs:53-55 | repeating a completed import of trimmed titles inserts nothing and returns an empty success |
| ImportScenarios.ParseYearOfFormatted | src/BoricuaCoder.CleanTemplate.Application/Movies/Commands/ImportMoviesFromOmdb/ImportMoviesFromOmdbCommandHandler.cs:50 | a non-negative 32-bit year written in decimal parses to itself |
| ImportScenarios.EnDashRangeParses | src/BoricuaCoder.CleanTemplate.Application/Movies/Commands/ImportMoviesFromOmdb/ImportMoviesFromOmdbCommandHandler.cs:50 | "2010–2012" (en dash) gives 2010 |
| ImportScenarios.HyphenRangeDoesNotParse | src/BoricuaCoder.CleanTemplate.Application/Movies/Commands/ImportMoviesFromOmdb/ImportMoviesFromOmdbCommandHandler.cs:50-51 | "2010-2012" (hyphen) does not parse, so the entry is skipped |
| ImportScenarios.NotAvailableDoesNotParse | tests/BoricuaCoder.CleanTemplate.UnitTests/Application/Movies/ImportMoviesFromOmdbCommandHandlerTests.cs:124-144 | "N/A" does not parse |
| ImportScenarios.NonDigitDoesNotParse | src/BoricuaCoder.CleanTemplate.Application/Movies/Commands/ImportMoviesFromOmdb/ImportMoviesFromOmdbCommandHandler.cs:50 | a trimmed text without en dash having a non-digit after its first character does not parse |
| ImportScenarios.InsertableCandidate | src/BoricuaCoder.CleanTemplate.Application/Movies/Commands/ImportMoviesFromOmdb/ImportMoviesFromOmdbCommandHandler.cs:50-57 | an entry with a trimmed title and a parsable in-range year becomes the factory's movie for it |
| ImportScenarios.ImportOfRun | src/BoricuaCoder.CleanTemplate.Application/Movies/Commands/ImportMoviesFromOmdb/ImportMoviesFromOmdbCommandHandler.cs:46-63 | once valid and non-empty, the handler's outcome is the loop's: its exception, or success with its projections |
| ImportScenarios.BothNewRun | src/BoricuaCoder.CleanTemplate.Application/Movies/Commands/ImportMoviesFromOmdb/ImportMoviesFromOmdbCommandHandler.cs:48-61 | two new insertable entries with different titles are both inserted, in order |
| ImportScenarios.StoredFirstRun | src/BoricuaCoder.CleanTemplate.Application/Movies/Commands/ImportMoviesFromOmdb/ImportMoviesFromOmdbCommandHandler.cs:53-60 | a stored first entry is skipped and the new second one inserted |
| ImportScenarios.UnparsableSecondRun | src/BoricuaCoder.CleanTemplate.Application/Movies/Commands/ImportMoviesFromOmdb/ImportMoviesFromOmdbCommandHandler.cs:50-60 | a second entry whose year does not parse is skipped after the first is inserted |
| ImportScenarios.EarlyYearRun | src/BoricuaCoder.CleanTemplate.Application/Movies/Commands/ImportMoviesFromOmdb/ImportMoviesFromOmdbCommandHandler.cs:57-58 | a second entry of a year before 1888 throws the year-range exception after the first, new entry is inserted |
| ImportScenarios.ImportsNewMovies | tests/BoricuaCoder.CleanTemplate.UnitTests/Application/Movies/ImportMoviesFromOmdbCommandHandlerTests.cs:36-60 | the two "Inception" films are both inserted and returned in search order |
| ImportScenarios.SkipsDuplicates | tests/BoricuaCoder.CleanTemplate.UnitTests/Application/Movies/ImportMoviesFromOmdbCommandHandlerTests.cs:62-88 | with "Inception" (2010) stored, only "Inception: The Cobol Job" is inserted and returned |
| ImportScenarios.SkipsUnparsableYear | tests/BoricuaCoder.CleanTemplate.UnitTests/Application/Movies/ImportMoviesFromOmdbCommandHandlerTests.cs:124-144 | the "N/A" entry is skipped and only "Good Movie" is returned |
| ImportScenarios.ThrowKeepsEarlierInserts | src/BoricuaCoder.CleanTemplate.Application/Movies/Commands/ImportMoviesFromOmdb/ImportMoviesFromOmdbCommandHandler.cs:57-58 | a year of 1800 after "Inception" throws the year-range exception and the "Inception" row stays |
| MoviesController.ToActionResult | src/BoricuaCoder.CleanTemplate.Api/Controllers/MoviesController.cs:62-86 | Success gives the action's response; NotFound gives 404 "Not Found", Conflict 409 "Conflict" (both with `Error` as detail), and ValidationError 400 "Validation Error" with the errors map, each of these exactly for its kind of result |
| MoviesController.FailureStatusIdentifiesKind | src/BoricuaCoder.CleanTemplate.Api/Controllers/MoviesController.cs:64-84 | two failing results get the same status iff they are of the same kind |
| MoviesController.FailureIsClientError | src/BoricuaCoder.CleanTemplate.Api/Controllers/MoviesController.cs:67-84 | every failing result is answered with a 4xx status |
| MoviesController.CreateResponse | src/BoricuaCoder.CleanTemplate.Api/Controllers/MoviesController.cs:35-39 | a success becomes 201 Created pointing at `GetById` for the response's id with the response as body, and any failure a problem response |
| MoviesController.GetByIdResponse | src/BoricuaCoder.CleanTemplate.Api/Controllers/MoviesController.cs:44-48 | a success becomes 200 OK with the response, and any failure a problem response |
| MoviesController.ImportResponse | src/BoricuaCoder.CleanTemplate.Api/Controllers/MoviesController.cs:54-60 | a success becomes 200 OK with the imported responses, and any failure a problem response |
| MoviesController.CreateStatuses | src/BoricuaCoder.CleanTemplate.Api/Controllers/MoviesController.cs:35-39 | POST answers 201 iff valid and new, 409 iff valid and stored, 400 iff invalid, never 404 |
| MoviesController.CreatedResponseResolves | src/BoricuaCoder.CleanTemplate.Api/Controllers/MoviesController.cs:38-47 | the 201 response names an id under which GET then answers 200 with the same body |
| MoviesController.GetByIdStatuses | src/BoricuaCoder.CleanTemplate.Api/Controllers/MoviesController.cs:44-48 | GET answers 200 iff some row has the id, 404 iff none |
| MoviesController.ImportStatuses | src/BoricuaCoder.CleanTemplate.Api/Controllers/MoviesController.cs:54-60 | a returning import answers 400 iff invalid, 404 iff valid with an empty search, 200 otherwise, never 409 |

## Left out

- The OMDb HTTP call and its JSON are not modelled; the search result is an input sequence. `OmdbService.cs` turns a response whose `Response` field is not "True" into an empty list, and this model treats that like any other empty search.
- SQL, the database's collation and any uniqueness constraint are not visible in the code. The existence test is exact string and integer equality, as the query text says.
- `GetByIdAsync` uses `QuerySingleOrDefault`, which throws when two rows share an id. The model answers with the first such row instead. `CreateMovie.PreservesDistinctIds` states when ids stay distinct.
- Dependency injection, `Program.cs`, routing, authorisation and serialisation are wiring and are not modelled.
- Async execution, cancellation tokens and concurrent requests are not modelled. Every workflow is one sequential call, so races between the existence check and the insert are out of scope.
- `DateTime.UtcNow` is read several times per request: twice by the create validator (`CreateMovieCommandValidator.cs` lines 14-15, for the bound and for the message) and twice by the factory (`Movie.cs` lines 19-20, for the check and for the message). No handler reads it. The model passes all of them one `currentYear`, so a year boundary between the reads is not modelled.
- `MoviesController.ToActionResult`: the `_ => 500` arm is not modelled. `ResultType` is a closed datatype here, so the mapping is total without it.
- Outside the core, a `DomainException` escaping the import handler becomes an error response. The model stops at the `Threw` outcome.
- FluentValidation's rule cascade is taken to be the default, under which every rule runs. So "" reports both search-term messages.
- CreateMovieValidation.MatchesImdbPattern: `\d` is ASCII digits only, whereas .NET's `\d` also matches other Unicode decimal digits. The .NET behaviour of `$` matching before a final line feed is modelled.
- Text.TryParseInt32: it accepts an optional sign and ASCII digits only. It does not model these `int.TryParse` behaviours:
  - culture-specific signs;
  - inner white space or trailing `\0` characters.
- A Dafny `char` is a Unicode scalar value, whereas a .NET `char` is a UTF-16 code unit. Lengths therefore differ for text outside the Basic Multilingual Plane: "😀" fails `MinimumLength(2)` here, but passes in .NET, where it is two code units.
- Null values are not modelled for:
  - the OMDb fields;
  - the create command's title, which `[FromBody]` could leave null.
  Titles are strings; only IMDb ids are optional.
- The import validator measures the raw, untrimmed length of the search term. `ImportValidation.UntrimmedLengthCounts` shows that " a" passes.
- The year range separator is the single character U+2013 (en dash), so a hyphen range is skipped (`ImportScenarios.HyphenRangeDoesNotParse`).
- ImportMovies.Candidates: the year parse and the factory call of each entry are computed ahead of the table lookups. This is equivalent to the loop, because neither reads the table. The i-th entry uses Guid `newGuid(i)`, whether or not earlier entries drew one.
