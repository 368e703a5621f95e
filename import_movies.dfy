/**
 * `ImportMoviesFromOmdbCommandHandler.HandleAsync`: validate the search term,
 * answer NotFound for an empty search, otherwise walk the search entries in
 * order, skipping those whose year does not parse or whose (title, year) is
 * already stored, and inserting the rest. The search result is an input
 * sequence; `newGuid(i)` is the Guid drawn when entry `i` is created.
 *
 * `Run` is the loop as a recursive function over the entries' candidates;
 * `Import` is one whole call; `Handle` is the handler itself on the repository,
 * proved to agree with `Import`.
 */
module ImportMovies {
  import opened Wrappers
  import opened Text
  import opened Guids
  import opened Movies
  import opened Dtos
  import opened Repository
  import opened Results
  import opened Validation
  import opened ImportValidation

  /** The range separator of OMDb years such as "2010–2012", U+2013 EN DASH. */
  const EnDash: char := '\U{2013}'

  /** `int.TryParse(raw.Split('–')[0].Trim(), out var year)`. */
  function ParseYear(raw: string): (r: Option<int>)
    ensures r.Some? ==> Int32Min <= r.value <= Int32Max
  {
    TryParseInt32(Trim(BeforeFirst(raw, EnDash)))
  }

  /** What the loop body works out for one entry before it looks at the table:
      no parsable year, or the parsed year together with what `Movie.Create`
      returns or throws for the entry. Neither step reads the table, and the Guid
      is the one drawn for that entry, so the candidate depends on the entry alone. */
  datatype Candidate = NoYear | Candidate(title: string, year: int, creation: Creation)

  function Prepare(entry: OmdbMovieResult, currentYear: int, id: NewGuid): Candidate {
    match ParseYear(entry.year)
    case None => NoYear
    case Some(y) => Candidate(entry.title, y, Create(Some(entry.title), y, Some(entry.imdbId), currentYear, id))
  }

  /** The candidates of all search entries, entry `i` with the Guid `newGuid(i)`. */
  function Candidates(es: seq<OmdbMovieResult>, currentYear: int, newGuid: nat -> NewGuid): (cs: seq<Candidate>)
    ensures |cs| == |es|
  {
    if es == [] then []
    else Candidates(es[..|es| - 1], currentYear, newGuid) + [Prepare(es[|es| - 1], currentYear, newGuid(|es| - 1))]
  }

  lemma {:induction false} CandidateAt(es: seq<OmdbMovieResult>, currentYear: int, newGuid: nat -> NewGuid, i: nat)
    requires i < |es|
    ensures Candidates(es, currentYear, newGuid)[i] == Prepare(es[i], currentYear, newGuid(i))
  {
    if i < |es| - 1 {
      CandidateAt(es[..|es| - 1], currentYear, newGuid, i);
    }
  }

  /** What the loop body does with one entry. */
  datatype EntryDecision =
    | Unparsable                       // `continue` at the year parse
    | AlreadyStored                    // `continue` at the existence check
    | Inserted(movie: Movie)           // created, inserted and projected
    | Aborted(error: DomainError)      // `Movie.Create` threw

  /** The loop body for one candidate, against the table as it stands. */
  function DecideEntry(rows: seq<Movie>, c: Candidate): (d: EntryDecision)
    ensures d.Unparsable? <==> c.NoYear?
    ensures d.AlreadyStored? <==> c.Candidate? && Exists(rows, c.title, c.year)
    ensures d.Inserted? ==> c.Candidate? && !Exists(rows, c.title, c.year) && c.creation == Created(d.movie)
    ensures d.Aborted? ==> c.Candidate? && !Exists(rows, c.title, c.year) && c.creation == Rejected(d.error)
  {
    match c
    case NoYear => Unparsable
    case Candidate(title, year, creation) =>
      if Exists(rows, title, year) then AlreadyStored
      else
        match creation
        case Created(m) => Inserted(m)
        case Rejected(e) => Aborted(e)
  }

  /** An entry is skipped exactly when its year does not parse or its (title, year)
      is stored; an inserted movie carries the trimmed title, the parsed year, the
      normalised IMDb id and the entry's Guid; the factory throws exactly for a
      blank title or a year out of range, with the matching message. */
  lemma DecideEntryFacts(rows: seq<Movie>, entry: OmdbMovieResult, currentYear: int, id: NewGuid)
    ensures var d := DecideEntry(rows, Prepare(entry, currentYear, id));
            && (d.Unparsable? <==> ParseYear(entry.year).None?)
            && (d.AlreadyStored? <==> ParseYear(entry.year).Some? && Exists(rows, entry.title, ParseYear(entry.year).value))
            && (d.Inserted? ==>
                  && ParseYear(entry.year) == Some(d.movie.year)
                  && !Exists(rows, entry.title, d.movie.year)
                  && d.movie.title == Trim(entry.title)
                  && d.movie.imdbId == NormalizeImdbId(Some(entry.imdbId))
                  && d.movie.id == id
                  && IsWellFormed(d.movie) && d.movie.year <= MaxYear(currentYear))
            && (d.Aborted? <==>
                  && ParseYear(entry.year).Some?
                  && !Exists(rows, entry.title, ParseYear(entry.year).value)
                  && (AllWhiteSpace(entry.title) || !(MinYear <= ParseYear(entry.year).value <= MaxYear(currentYear))))
            && (d.Aborted? && AllWhiteSpace(entry.title) ==> d.error == DomainError(TitleRequiredMessage))
            && (d.Aborted? && !AllWhiteSpace(entry.title) ==> d.error == DomainError(YearRangeMessage(currentYear)))
  {
  }

  /** The candidate is passed over without an insert: no parsable year, or its
      (title, year) is in the table. */
  predicate Skippable(rows: seq<Movie>, c: Candidate) {
    c.NoYear? || Exists(rows, c.title, c.year)
  }

  /** The entry is passed over without an insert, stated on the entry itself. */
  ghost predicate EntrySkipped(rows: seq<Movie>, entry: OmdbMovieResult) {
    ParseYear(entry.year).None? || Exists(rows, entry.title, ParseYear(entry.year).value)
  }

  lemma SkippableEntry(rows: seq<Movie>, entry: OmdbMovieResult, currentYear: int, id: NewGuid)
    ensures Skippable(rows, Prepare(entry, currentYear, id)) <==> EntrySkipped(rows, entry)
    ensures Skippable(rows, Prepare(entry, currentYear, id)) <==> !DecideEntry(rows, Prepare(entry, currentYear, id)).Inserted? && !DecideEntry(rows, Prepare(entry, currentYear, id)).Aborted?
  {
  }

  /** The entry at `index` made `Movie.Create` throw. */
  datatype Failure = Failure(index: nat, error: DomainError)

  /** The movies inserted, the positions of the entries they came from, and the
      exception that ended the loop early, if any. */
  datatype ImportRun = ImportRun(inserted: seq<Movie>, picked: seq<nat>, failure: Option<Failure>)

  /** The state of the loop after its first `n` iterations over the candidates
      `cs`, starting from the table `rows`: once an entry throws, later entries
      are never reached. */
  function Run(rows: seq<Movie>, cs: seq<Candidate>, n: nat): (run: ImportRun)
    requires n <= |cs|
  {
    if n == 0 then ImportRun([], [], None)
    else
      var prev := Run(rows, cs, n - 1);
      if prev.failure.Some? then prev
      else
        match DecideEntry(rows + prev.inserted, cs[n - 1])
        case Unparsable => prev
        case AlreadyStored => prev
        case Inserted(m) => ImportRun(prev.inserted + [m], prev.picked + [n - 1], None)
        case Aborted(e) => ImportRun(prev.inserted, prev.picked, Some(Failure(n - 1, e)))
  }

  /** After an entry has thrown, the state no longer changes. */
  lemma {:induction false} RunStopsAtFailure(rows: seq<Movie>, cs: seq<Candidate>, n: nat, k: nat)
    requires n <= k <= |cs|
    requires Run(rows, cs, n).failure.Some?
    ensures Run(rows, cs, k) == Run(rows, cs, n)
    decreases k - n
  {
    if k > n {
      RunStopsAtFailure(rows, cs, n, k - 1);
    }
  }

  /** One more iteration of an unfailed run: a skip leaves the state as it was,
      an insert appends the movie and the entry's position, and a throw ends the
      whole run with that exception. */
  lemma RunStep(rows: seq<Movie>, cs: seq<Candidate>, i: nat, inserted: seq<Movie>, picked: seq<nat>)
    requires i < |cs| && Run(rows, cs, i) == ImportRun(inserted, picked, None)
    ensures var d := DecideEntry(rows + inserted, cs[i]);
            && (d.Unparsable? || d.AlreadyStored? ==> Run(rows, cs, i + 1) == ImportRun(inserted, picked, None))
            && (d.Inserted? ==> Run(rows, cs, i + 1) == ImportRun(inserted + [d.movie], picked + [i], None))
            && (d.Aborted? ==> Run(rows, cs, |cs|) == ImportRun(inserted, picked, Some(Failure(i, d.error))))
  {
    if DecideEntry(rows + inserted, cs[i]).Aborted? {
      RunStopsAtFailure(rows, cs, i + 1, |cs|);
    }
  }

  /** What the handler ends in: a returned result, or the `DomainException` that
      escaped it. */
  datatype ImportOutcome = Completed(result: Result<seq<MovieResponse>>) | Threw(error: DomainError)

  /** The outcome together with the table left behind. */
  datatype ImportEffect = ImportEffect(outcome: ImportOutcome, rows: seq<Movie>)

  function NoMoviesMessage(searchTerm: string): string {
    "No movies found on OMDB for '" + searchTerm + "'."
  }

  /** The message says no movies were found and names the search term. */
  lemma NoMoviesMessageMentions(searchTerm: string)
    ensures Contains(NoMoviesMessage(searchTerm), "No movies found")
    ensures Contains(NoMoviesMessage(searchTerm), searchTerm)
  {
    var head := "No movies found on OMDB for '";
    ContainsMiddle(head, searchTerm, "'.");
    assert head == [] + "No movies found" + " on OMDB for '";
    assert NoMoviesMessage(searchTerm) == [] + "No movies found" + (" on OMDB for '" + searchTerm + "'.");
    ContainsMiddle([], "No movies found", " on OMDB for '" + searchTerm + "'.");
  }

  /** One call of the handler. The table only grows; when validation fails or the
      search is empty it is left as it was. */
  function Import(rows: seq<Movie>, cmd: ImportMoviesFromOmdbCommand, search: seq<OmdbMovieResult>,
                  currentYear: int, newGuid: nat -> NewGuid): (e: ImportEffect)
    ensures rows <= e.rows
    ensures Validate(cmd) != [] ==>
              e == ImportEffect(Completed(Result.ValidationError(GroupByProperty(Validate(cmd)))), rows)
    ensures Validate(cmd) == [] && search == [] ==>
              e == ImportEffect(Completed(Result.NotFound(NoMoviesMessage(cmd.searchTerm))), rows)
    ensures (e.outcome.Completed? && e.outcome.result.NotFound?) <==> Validate(cmd) == [] && search == []
    ensures e.outcome.Completed? && e.outcome.result.Success? ==>
              e.outcome.result.value == Projections(e.rows[|rows|..])
  {
    var failures := Validate(cmd);
    if failures != [] then
      ImportEffect(Completed(Result.ValidationError(GroupByProperty(failures))), rows)
    else if |search| == 0 then
      ImportEffect(Completed(Result.NotFound(NoMoviesMessage(cmd.searchTerm))), rows)
    else
      var run := Run(rows, Candidates(search, currentYear, newGuid), |search|);
      assert (rows + run.inserted)[|rows|..] == run.inserted;
      if run.failure.Some? then ImportEffect(Threw(run.failure.value.error), rows + run.inserted)
      else ImportEffect(Completed(Result.Success(Projections(run.inserted))), rows + run.inserted)
  }

  lemma ProjectionsAppend(ms: seq<Movie>, m: Movie)
    ensures Projections(ms + [m]) == Projections(ms) + [Project(m)]
  {
  }

  /** The body of the `foreach` loop for the entry at position `i`: parse the
      year, check for a stored (title, year), build the movie and insert it. */
  method ImportEntry(repo: MovieRepository, search: seq<OmdbMovieResult>, currentYear: int,
                     newGuid: nat -> NewGuid, i: nat) returns (d: EntryDecision)
    requires i < |search|
    modifies repo
    ensures d == DecideEntry(old(repo.rows), Candidates(search, currentYear, newGuid)[i])
    ensures repo.rows == old(repo.rows) + (if d.Inserted? then [d.movie] else [])
  {
    CandidateAt(search, currentYear, newGuid, i);
    var entry := search[i];
    var parsed := ParseYear(entry.year);
    if parsed.None? {
      return Unparsable;
    }
    var year := parsed.value;
    var duplicate := repo.ExistsByTitleAndYear(entry.title, year);
    if duplicate {
      return AlreadyStored;
    }
    var created := Create(Some(entry.title), year, Some(entry.imdbId), currentYear, newGuid(i));
    if created.Rejected? {
      return Aborted(created.error);
    }
    repo.Create(created.movie);
    return Inserted(created.movie);
  }

  /** The `foreach` loop of `HandleAsync` over the search entries: returns the
      projections it collected, or the exception that stopped it. */
  method ImportEntries(repo: MovieRepository, search: seq<OmdbMovieResult>, currentYear: int,
                       newGuid: nat -> NewGuid) returns (imported: seq<MovieResponse>, thrown: Option<DomainError>)
    modifies repo
    ensures var run := Run(old(repo.rows), Candidates(search, currentYear, newGuid), |search|);
            && repo.rows == old(repo.rows) + run.inserted
            && imported == Projections(run.inserted)
            && thrown == (if run.failure.Some? then Some(run.failure.value.error) else None)
  {
    ghost var rows0 := repo.rows;
    ghost var cs := Candidates(search, currentYear, newGuid);
    ghost var inserted: seq<Movie> := [];
    ghost var picked: seq<nat> := [];
    imported := [];
    for i := 0 to |search|
      invariant repo.rows == rows0 + inserted
      invariant imported == Projections(inserted)
      invariant Run(rows0, cs, i) == ImportRun(inserted, picked, None)
    {
      var d := ImportEntry(repo, search, currentYear, newGuid, i);
      RunStep(rows0, cs, i, inserted, picked);
      if d.Aborted? {
        return imported, Some(d.error);
      }
      if d.Inserted? {
        ProjectionsAppend(inserted, d.movie);
        imported := imported + [Project(d.movie)];
        inserted := inserted + [d.movie];
        picked := picked + [i];
      }
    }
    thrown := None;
  }

  /** `HandleAsync(command)` on the repository, with the search result given. */
  method Handle(repo: MovieRepository, cmd: ImportMoviesFromOmdbCommand, search: seq<OmdbMovieResult>,
                currentYear: int, newGuid: nat -> NewGuid) returns (outcome: ImportOutcome)
    modifies repo
    ensures ImportEffect(outcome, repo.rows) == Import(old(repo.rows), cmd, search, currentYear, newGuid)
  {
    var failures := Validate(cmd);
    if failures != [] {
      var errors := GroupByProperty(failures);
      return Completed(Result.ValidationError(errors));
    }
    if |search| == 0 {
      return Completed(Result.NotFound(NoMoviesMessage(cmd.searchTerm)));
    }
    var imported, thrown := ImportEntries(repo, search, currentYear, newGuid);
    if thrown.Some? {
      return Threw(thrown.value);
    }
    return Completed(Result.Success(imported));
  }
}
