/**
 * Concrete runs of the import: how OMDb year texts parse, and the handler on the
 * small searches its unit tests describe, against any table that does not
 * already hold the films concerned.
 */
module ImportScenarios {
  import opened Wrappers
  import opened Text
  import opened Guids
  import opened Movies
  import opened Dtos
  import opened Repository
  import opened Results
  import opened ImportValidation
  import opened ImportMovies

  // ---- year texts

  /** A year written out by `int.ToString` parses back to itself. */
  lemma ParseYearOfFormatted(n: int)
    requires 0 <= n <= Int32Max
    ensures ParseYear(IntToString(n)) == Some(n)
  {
    var s := IntToString(n);
    NatToStringDigits(n);
    assert EnDash !in s by {
      forall i | 0 <= i < |s| ensures s[i] != EnDash {
        assert IsDigit(s[i]);
      }
    }
    BeforeFirstAbsent(s, EnDash);
    assert IsDigit(s[0]) && IsDigit(s[|s| - 1]);
    TrimOfTrimmed(s);
    IntToStringRoundTrip(n);
  }

  lemma Year2010()
    ensures ParseYear("2010") == Some(2010)
  {
    assert IntToString(2010) == "2010";
    ParseYearOfFormatted(2010);
  }

  lemma Year2020()
    ensures ParseYear("2020") == Some(2020)
  {
    assert IntToString(2020) == "2020";
    ParseYearOfFormatted(2020);
  }

  lemma Year1800()
    ensures ParseYear("1800") == Some(1800)
  {
    assert IntToString(1800) == "1800";
    ParseYearOfFormatted(1800);
  }

  /** A range with the en dash keeps its first year. */
  lemma EnDashRangeParses()
    ensures ParseYear("2010\U{2013}2012") == Some(2010)
  {
    assert "2010" + [EnDash] + "2012" == "2010\U{2013}2012";
    BeforeFirstSplit("2010", EnDash, "2012");
    BeforeFirstAbsent("2010", EnDash);
    Year2010();
  }

  /** A text with no en dash and no surrounding white space whose character at
      some position other than the first is not a digit does not parse. */
  lemma NonDigitDoesNotParse(s: string, k: nat)
    requires EnDash !in s && IsTrimmed(s) && 0 < k < |s| && !IsDigit(s[k])
    ensures ParseYear(s) == None
  {
    BeforeFirstAbsent(s, EnDash);
    TrimOfTrimmed(s);
    assert s[1..][k - 1] == s[k];
  }

  /** A range written with a hyphen does not parse, so the entry is skipped. */
  lemma HyphenRangeDoesNotParse()
    ensures ParseYear("2010-2012") == None
  {
    NonDigitDoesNotParse("2010-2012", 4);
  }

  /** OMDb's "N/A" does not parse. */
  lemma NotAvailableDoesNotParse()
    ensures ParseYear("N/A") == None
  {
    NonDigitDoesNotParse("N/A", 1);
  }

  // ---- single entries

  /** An entry the loop inserts when its (title, year) is not stored: the year
      parses to a value in range and the title is non-empty and trimmed. */
  predicate Insertable(entry: OmdbMovieResult, currentYear: int, year: int) {
    && ParseYear(entry.year) == Some(year)
    && entry.title != [] && IsTrimmed(entry.title)
    && MinYear <= year <= MaxYear(currentYear)
  }

  /** The movie built from an insertable entry. */
  function EntryMovie(entry: OmdbMovieResult, year: int, id: NewGuid): Movie {
    Movie(id, entry.title, year, NormalizeImdbId(Some(entry.imdbId)))
  }

  lemma InsertableCandidate(entry: OmdbMovieResult, currentYear: int, id: NewGuid, year: int)
    requires Insertable(entry, currentYear, year)
    ensures Prepare(entry, currentYear, id) == Candidate(entry.title, year, Created(EntryMovie(entry, year, id)))
  {
    assert !IsWhiteSpace(entry.title[0]);
    TrimOfTrimmed(entry.title);
  }

  /** One row whose title differs from `title` does not make `title` stored. */
  lemma NotStoredAfter(rows: seq<Movie>, m: Movie, title: string, year: int)
    requires !Exists(rows, title, year) && m.title != title
    ensures !Exists(rows + [m], title, year)
  {
    ExistsInExtension(rows, [m], title, year);
  }

  // ---- two-entry searches

  /** Once validation passes and the search is not empty, the handler's outcome
      is that of the loop over the search. */
  lemma ImportOfRun(rows: seq<Movie>, cmd: ImportMoviesFromOmdbCommand, search: seq<OmdbMovieResult>,
                    currentYear: int, newGuid: nat -> NewGuid, run: ImportRun)
    requires Validate(cmd) == [] && search != []
    requires Run(rows, Candidates(search, currentYear, newGuid), |search|) == run
    ensures Import(rows, cmd, search, currentYear, newGuid)
         == if run.failure.Some? then ImportEffect(Threw(run.failure.value.error), rows + run.inserted)
            else ImportEffect(Completed(Result.Success(Projections(run.inserted))), rows + run.inserted)
  {
  }

  /** Two insertable entries with different titles, neither stored: the loop
      inserts both, in search order. */
  lemma BothNewRun(rows: seq<Movie>, search: seq<OmdbMovieResult>, currentYear: int, newGuid: nat -> NewGuid,
                   y0: int, y1: int)
    requires |search| == 2
    requires Insertable(search[0], currentYear, y0) && Insertable(search[1], currentYear, y1)
    requires search[0].title != search[1].title
    requires !Exists(rows, search[0].title, y0) && !Exists(rows, search[1].title, y1)
    ensures Run(rows, Candidates(search, currentYear, newGuid), 2)
         == ImportRun([EntryMovie(search[0], y0, newGuid(0)), EntryMovie(search[1], y1, newGuid(1))], [0, 1], None)
  {
    var cs := Candidates(search, currentYear, newGuid);
    var m0 := EntryMovie(search[0], y0, newGuid(0));
    CandidateAt(search, currentYear, newGuid, 0);
    CandidateAt(search, currentYear, newGuid, 1);
    InsertableCandidate(search[0], currentYear, newGuid(0), y0);
    InsertableCandidate(search[1], currentYear, newGuid(1), y1);
    assert rows + [] == rows;
    RunStep(rows, cs, 0, [], []);
    assert Run(rows, cs, 1) == ImportRun([m0], [0], None);
    NotStoredAfter(rows, m0, search[1].title, y1);
    assert DecideEntry(rows + [m0], cs[1]) == Inserted(EntryMovie(search[1], y1, newGuid(1)));
    RunStep(rows, cs, 1, [m0], [0]);
  }

  /** A first entry whose (title, year) is stored is skipped; the second, new one
      is inserted. */
  lemma StoredFirstRun(rows: seq<Movie>, search: seq<OmdbMovieResult>, currentYear: int, newGuid: nat -> NewGuid,
                       y0: int, y1: int)
    requires |search| == 2
    requires ParseYear(search[0].year) == Some(y0) && Exists(rows, search[0].title, y0)
    requires Insertable(search[1], currentYear, y1) && !Exists(rows, search[1].title, y1)
    ensures Run(rows, Candidates(search, currentYear, newGuid), 2)
         == ImportRun([EntryMovie(search[1], y1, newGuid(1))], [1], None)
  {
    var cs := Candidates(search, currentYear, newGuid);
    CandidateAt(search, currentYear, newGuid, 0);
    CandidateAt(search, currentYear, newGuid, 1);
    InsertableCandidate(search[1], currentYear, newGuid(1), y1);
    assert rows + [] == rows;
    RunStep(rows, cs, 0, [], []);
    RunStep(rows, cs, 1, [], []);
  }

  /** A second entry whose year does not parse is skipped after the first, new one
      is inserted. */
  lemma UnparsableSecondRun(rows: seq<Movie>, search: seq<OmdbMovieResult>, currentYear: int,
                            newGuid: nat -> NewGuid, y0: int)
    requires |search| == 2
    requires Insertable(search[0], currentYear, y0) && !Exists(rows, search[0].title, y0)
    requires ParseYear(search[1].year) == None
    ensures Run(rows, Candidates(search, currentYear, newGuid), 2)
         == ImportRun([EntryMovie(search[0], y0, newGuid(0))], [0], None)
  {
    var cs := Candidates(search, currentYear, newGuid);
    var m0 := EntryMovie(search[0], y0, newGuid(0));
    CandidateAt(search, currentYear, newGuid, 0);
    CandidateAt(search, currentYear, newGuid, 1);
    InsertableCandidate(search[0], currentYear, newGuid(0), y0);
    assert rows + [] == rows;
    RunStep(rows, cs, 0, [], []);
    RunStep(rows, cs, 1, [m0], [0]);
  }

  /** A second entry with a year before 1888 makes the factory throw after the
      first, new entry is inserted. */
  lemma EarlyYearRun(rows: seq<Movie>, search: seq<OmdbMovieResult>, currentYear: int, newGuid: nat -> NewGuid,
                     y0: int, y1: int)
    requires |search| == 2
    requires Insertable(search[0], currentYear, y0) && !Exists(rows, search[0].title, y0)
    requires ParseYear(search[1].year) == Some(y1) && y1 < MinYear
    requires !AllWhiteSpace(search[1].title) && search[1].title != search[0].title
    requires !Exists(rows, search[1].title, y1)
    ensures Run(rows, Candidates(search, currentYear, newGuid), 2)
         == ImportRun([EntryMovie(search[0], y0, newGuid(0))], [0],
                      Some(Failure(1, DomainError(YearRangeMessage(currentYear)))))
  {
    var cs := Candidates(search, currentYear, newGuid);
    var m0 := EntryMovie(search[0], y0, newGuid(0));
    CandidateAt(search, currentYear, newGuid, 0);
    CandidateAt(search, currentYear, newGuid, 1);
    InsertableCandidate(search[0], currentYear, newGuid(0), y0);
    assert rows + [] == rows;
    RunStep(rows, cs, 0, [], []);
    NotStoredAfter(rows, m0, search[1].title, y1);
    RunStep(rows, cs, 1, [m0], [0]);
  }

  // ---- the handler's unit-test searches

  const Inception := OmdbMovieResult("Inception", "2010", "tt1375666")
  const CobolJob := OmdbMovieResult("Inception: The Cobol Job", "2010", "tt1790736")
  const GoodMovie := OmdbMovieResult("Good Movie", "2020", "tt1111111")
  const BadYearMovie := OmdbMovieResult("Bad Year Movie", "N/A", "tt2222222")
  const TooEarly := OmdbMovieResult("Too Early", "1800", "tt0000001")

  lemma InceptionInsertable(currentYear: int)
    requires 2005 <= currentYear
    ensures Insertable(Inception, currentYear, 2010) && Insertable(CobolJob, currentYear, 2010)
  {
    Year2010();
    assert !IsWhiteSpace('I') && !IsWhiteSpace('n') && !IsWhiteSpace('b');
  }

  /** Both films of the "Inception" search are new: two rows are inserted and the
      two responses come back in search order. */
  lemma ImportsNewMovies(rows: seq<Movie>, cmd: ImportMoviesFromOmdbCommand, currentYear: int, newGuid: nat -> NewGuid)
    requires Validate(cmd) == [] && 2005 <= currentYear
    requires !Exists(rows, "Inception", 2010) && !Exists(rows, "Inception: The Cobol Job", 2010)
    ensures var e := Import(rows, cmd, [Inception, CobolJob], currentYear, newGuid);
            && e.outcome.Completed? && e.outcome.result.Success?
            && |e.outcome.result.value| == 2
            && e.outcome.result.value[0].title == "Inception"
            && e.outcome.result.value[1].title == "Inception: The Cobol Job"
            && |e.rows| == |rows| + 2
  {
    InceptionInsertable(currentYear);
    var search := [Inception, CobolJob];
    var m0 := EntryMovie(Inception, 2010, newGuid(0));
    var m1 := EntryMovie(CobolJob, 2010, newGuid(1));
    BothNewRun(rows, search, currentYear, newGuid, 2010, 2010);
    ImportOfRun(rows, cmd, search, currentYear, newGuid, ImportRun([m0, m1], [0, 1], None));
  }

  /** "Inception" (2010) is already stored: only the other film is inserted and returned. */
  lemma SkipsDuplicates(rows: seq<Movie>, cmd: ImportMoviesFromOmdbCommand, currentYear: int, newGuid: nat -> NewGuid)
    requires Validate(cmd) == [] && 2005 <= currentYear
    requires Exists(rows, "Inception", 2010) && !Exists(rows, "Inception: The Cobol Job", 2010)
    ensures var e := Import(rows, cmd, [Inception, CobolJob], currentYear, newGuid);
            && e.outcome.Completed? && e.outcome.result.Success?
            && |e.outcome.result.value| == 1
            && e.outcome.result.value[0].title == "Inception: The Cobol Job"
            && |e.rows| == |rows| + 1
  {
    InceptionInsertable(currentYear);
    var search := [Inception, CobolJob];
    var m1 := EntryMovie(CobolJob, 2010, newGuid(1));
    StoredFirstRun(rows, search, currentYear, newGuid, 2010, 2010);
    ImportOfRun(rows, cmd, search, currentYear, newGuid, ImportRun([m1], [1], None));
  }

  /** The entry whose year is "N/A" is skipped. */
  lemma SkipsUnparsableYear(rows: seq<Movie>, cmd: ImportMoviesFromOmdbCommand, currentYear: int,
                            newGuid: nat -> NewGuid)
    requires Validate(cmd) == [] && 2015 <= currentYear
    requires !Exists(rows, "Good Movie", 2020)
    ensures var e := Import(rows, cmd, [GoodMovie, BadYearMovie], currentYear, newGuid);
            && e.outcome.Completed? && e.outcome.result.Success?
            && |e.outcome.result.value| == 1
            && e.outcome.result.value[0].title == "Good Movie"
            && |e.rows| == |rows| + 1
  {
    Year2020();
    NotAvailableDoesNotParse();
    assert !IsWhiteSpace('G') && !IsWhiteSpace('e');
    var search := [GoodMovie, BadYearMovie];
    var m0 := EntryMovie(GoodMovie, 2020, newGuid(0));
    UnparsableSecondRun(rows, search, currentYear, newGuid, 2020);
    ImportOfRun(rows, cmd, search, currentYear, newGuid, ImportRun([m0], [0], None));
  }

  /** A year of 1800 aborts the import after "Inception" was inserted: the
      exception carries the year-range message and the inserted row stays. */
  lemma ThrowKeepsEarlierInserts(rows: seq<Movie>, cmd: ImportMoviesFromOmdbCommand, currentYear: int,
                                 newGuid: nat -> NewGuid)
    requires Validate(cmd) == [] && 2005 <= currentYear
    requires !Exists(rows, "Inception", 2010) && !Exists(rows, "Too Early", 1800)
    ensures var e := Import(rows, cmd, [Inception, TooEarly], currentYear, newGuid);
            && e.outcome == Threw(DomainError(YearRangeMessage(currentYear)))
            && |e.rows| == |rows| + 1
            && e.rows[|rows|].title == "Inception"
  {
    InceptionInsertable(currentYear);
    Year1800();
    assert TooEarly.title[0] == 'T';
    var search := [Inception, TooEarly];
    var m0 := EntryMovie(Inception, 2010, newGuid(0));
    var failure := Failure(1, DomainError(YearRangeMessage(currentYear)));
    EarlyYearRun(rows, search, currentYear, newGuid, 2010, 1800);
    ImportOfRun(rows, cmd, search, currentYear, newGuid, ImportRun([m0], [0], Some(failure)));
  }
}
