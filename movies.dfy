/**
 * The movie entity and its validating factory `Movie.Create`.
 * A movie is never changed after it is created, so it is a value here.
 * `DateTime.UtcNow.Year` and `Guid.NewGuid()` are parameters of the factory.
 */
module Movies {
  import opened Wrappers
  import opened Text
  import opened Guids

  datatype Movie = Movie(id: Guid, title: string, year: int, imdbId: Option<string>)

  /** `DomainException`, carrying its message. */
  datatype DomainError = DomainError(message: string)

  /** What `Movie.Create` does: return a movie or throw a `DomainException`. */
  datatype Creation = Created(movie: Movie) | Rejected(error: DomainError)

  /** The first year the factory accepts. */
  const MinYear: int := 1888

  /** The last year the factory accepts, five years after the current one. */
  function MaxYear(currentYear: int): int {
    currentYear + 5
  }

  const TitleRequiredMessage: string := "Movie title is required."

  function YearRangeMessage(currentYear: int): string {
    "Movie year must be between 1888 and " + IntToString(MaxYear(currentYear)) + "."
  }

  /** The stored IMDb id: absent for a null or blank input, else the trimmed input. */
  function NormalizeImdbId(imdbId: Option<string>): (r: Option<string>)
    ensures r.None? <==> IsNullOrWhiteSpace(imdbId)
    ensures r.Some? ==> r.value != [] && IsTrimmed(r.value)
    ensures r.Some? ==> exists i :: StripsTo(imdbId.value, r.value, i)
  {
    if IsNullOrWhiteSpace(imdbId) then None
    else
      TrimFacts(imdbId.value);
      Some(Trim(imdbId.value))
  }

  /** What every movie that `Create` returns satisfies, independently of the clock:
      a non-empty trimmed title, a year not before 1888, an IMDb id that is absent
      or non-empty and trimmed, and an id that is not `Guid.Empty`. */
  predicate IsWellFormed(m: Movie) {
    && m.title != [] && IsTrimmed(m.title)
    && MinYear <= m.year
    && (m.imdbId.Some? ==> m.imdbId.value != [] && IsTrimmed(m.imdbId.value))
    && m.id != Empty
  }

  /** The message for a missing title mentions "title". */
  lemma TitleMessageMentionsTitle()
    ensures Contains(TitleRequiredMessage, "title")
  {
    ContainsMiddle("Movie ", "title", " is required.");
    assert "Movie " + "title" + " is required." == TitleRequiredMessage;
  }

  /** The message for a year out of range mentions "year". */
  lemma YearMessageMentionsYear(currentYear: int)
    ensures Contains(YearRangeMessage(currentYear), "year")
  {
    var number := IntToString(MaxYear(currentYear)) + ".";
    var tail := " must be between 1888 and " + number;
    assert "Movie year must be between 1888 and " == "Movie " + "year" + " must be between 1888 and ";
    assert YearRangeMessage(currentYear) == "Movie " + "year" + tail;
    ContainsMiddle("Movie ", "year", tail);
  }

  /** `Movie.Create(title, year, imdbId)`: rejects a null or blank title, then a year
      outside [1888, currentYear + 5]; otherwise trims the title, keeps the year,
      normalises the IMDb id and takes the fresh Guid as the id. */
  function Create(title: Option<string>, year: int, imdbId: Option<string>,
                  currentYear: int, newId: NewGuid): (r: Creation)
    ensures r.Rejected? <==> IsNullOrWhiteSpace(title) || year < MinYear || year > MaxYear(currentYear)
    ensures IsNullOrWhiteSpace(title) ==>
              r == Rejected(DomainError(TitleRequiredMessage))
    ensures !IsNullOrWhiteSpace(title) && (year < MinYear || year > MaxYear(currentYear)) ==>
              r == Rejected(DomainError(YearRangeMessage(currentYear)))
    ensures r.Created? ==>
              && r.movie.title == Trim(title.value)
              && r.movie.year == year
              && r.movie.imdbId == NormalizeImdbId(imdbId)
              && r.movie.id == newId
    ensures r.Created? ==> IsWellFormed(r.movie) && r.movie.year <= MaxYear(currentYear)
  {
    if IsNullOrWhiteSpace(title) then
      Rejected(DomainError(TitleRequiredMessage))
    else if year < MinYear || year > MaxYear(currentYear) then
      Rejected(DomainError(YearRangeMessage(currentYear)))
    else
      var trimmed := Trim(title.value);
      TrimFacts(title.value);
      NewGuidIsNotEmpty(newId);
      assert trimmed != [] && IsTrimmed(trimmed);
      var m := Movie(newId, trimmed, year, NormalizeImdbId(imdbId));
      assert IsWellFormed(m);
      Created(m)
  }

  /** 1888 and currentYear + 5 themselves are accepted, the years just outside are not. */
  lemma YearBoundsInclusive(title: string, imdbId: Option<string>, currentYear: int, newId: NewGuid)
    requires !IsNullOrWhiteSpace(Some(title)) && MinYear <= MaxYear(currentYear)
    ensures Create(Some(title), MinYear, imdbId, currentYear, newId).Created?
    ensures Create(Some(title), MaxYear(currentYear), imdbId, currentYear, newId).Created?
    ensures Create(Some(title), MinYear - 1, imdbId, currentYear, newId).Rejected?
    ensures Create(Some(title), MaxYear(currentYear) + 1, imdbId, currentYear, newId).Rejected?
  {
  }
}
