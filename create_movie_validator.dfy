/**
 * `CreateMovieCommandValidator`: the Title, Year and ImdbId rules. Every rule is
 * checked (FluentValidation's default cascade), so one property can fail twice.
 */
module CreateMovieValidation {
  import opened Wrappers
  import opened Text
  import opened Movies
  import opened Validation

  /** `CreateMovieCommand(Title, Year, ImdbId)`. */
  datatype CreateMovieCommand = CreateMovieCommand(title: string, year: int, imdbId: Option<string>)

  const MaxTitleLength: nat := 200

  const TitleRequired: string := "Title is required."
  const TitleTooLong: string := "Title must not exceed 200 characters."
  const ImdbIdFormat: string := "ImdbId must be in format 'tt' followed by digits (e.g. tt1234567)."

  function YearOutOfRange(currentYear: int): string {
    "Year must be between 1888 and " + IntToString(MaxYear(currentYear)) + "."
  }

  /** The pattern `^tt\d+$` (no options): "tt", one or more digits, and the end of
      the text or a final line feed, where .NET's `$` also matches. */
  predicate MatchesImdbPattern(s: string) {
    && |s| >= 3 && s[0] == 't' && s[1] == 't'
    && (|| AllDigits(s[2..])
        || (|s| >= 4 && s[|s| - 1] == '\n' && AllDigits(s[2..|s| - 1])))
  }

  /** The rules the validator checks, all of them. */
  predicate PassesRules(cmd: CreateMovieCommand, currentYear: int) {
    && !IsNullOrWhiteSpace(Some(cmd.title))
    && |cmd.title| <= MaxTitleLength
    && MinYear <= cmd.year <= MaxYear(currentYear)
    && (IsNullOrWhiteSpace(cmd.imdbId) || MatchesImdbPattern(cmd.imdbId.value))
  }

  /** `ValidateAsync(command)`: the failures of the rules, in declaration order:
      Title `NotEmpty()` and `MaximumLength(200)`, Year
      `InclusiveBetween(1888, DateTime.UtcNow.Year + 5)`, and ImdbId
      `Matches(@"^tt\d+$")` when the id is not blank. */
  function Validate(cmd: CreateMovieCommand, currentYear: int): (fs: seq<ValidationFailure>)
    ensures fs == [] <==> PassesRules(cmd, currentYear)
    ensures |fs| <= 4
    ensures forall p, m :: Reports(fs, p, m) <==>
              || (p == "Title" && m == TitleRequired && IsNullOrWhiteSpace(Some(cmd.title)))
              || (p == "Title" && m == TitleTooLong && |cmd.title| > MaxTitleLength)
              || (p == "Year" && m == YearOutOfRange(currentYear) && !(MinYear <= cmd.year <= MaxYear(currentYear)))
              || (p == "ImdbId" && m == ImdbIdFormat
                  && !IsNullOrWhiteSpace(cmd.imdbId) && !MatchesImdbPattern(cmd.imdbId.value))
    ensures forall p :: Mentions(fs, p) <==>
              || (p == "Title" && (IsNullOrWhiteSpace(Some(cmd.title)) || |cmd.title| > MaxTitleLength))
              || (p == "Year" && !(MinYear <= cmd.year <= MaxYear(currentYear)))
              || (p == "ImdbId" && !IsNullOrWhiteSpace(cmd.imdbId) && !MatchesImdbPattern(cmd.imdbId.value))
  {
    var required := IsNullOrWhiteSpace(Some(cmd.title));
    var tooLong := |cmd.title| > MaxTitleLength;
    var badYear := !(MinYear <= cmd.year <= MaxYear(currentYear));
    var badImdbId := !IsNullOrWhiteSpace(cmd.imdbId) && !MatchesImdbPattern(cmd.imdbId.value);
    var c1 := Check(required, "Title", TitleRequired);
    var c2 := Check(tooLong, "Title", TitleTooLong);
    var c3 := Check(badYear, "Year", YearOutOfRange(currentYear));
    var c4 := Check(badImdbId, "ImdbId", ImdbIdFormat);
    CheckFacts(required, "Title", TitleRequired);
    CheckFacts(tooLong, "Title", TitleTooLong);
    CheckFacts(badYear, "Year", YearOutOfRange(currentYear));
    CheckFacts(badImdbId, "ImdbId", ImdbIdFormat);
    Concat(c1, c2);
    Concat(c1 + c2, c3);
    Concat(c1 + c2 + c3, c4);
    c1 + c2 + c3 + c4
  }

  /** The messages of the four rules for one property, rule by rule. */
  lemma MessagesOfRules(cmd: CreateMovieCommand, currentYear: int, p: string)
    ensures MessagesFor(Validate(cmd, currentYear), p)
         == (if IsNullOrWhiteSpace(Some(cmd.title)) && p == "Title" then [TitleRequired] else [])
          + (if |cmd.title| > MaxTitleLength && p == "Title" then [TitleTooLong] else [])
          + (if !(MinYear <= cmd.year <= MaxYear(currentYear)) && p == "Year" then [YearOutOfRange(currentYear)] else [])
          + (if !IsNullOrWhiteSpace(cmd.imdbId) && !MatchesImdbPattern(cmd.imdbId.value) && p == "ImdbId"
             then [ImdbIdFormat] else [])
  {
    var r1, r2 := IsNullOrWhiteSpace(Some(cmd.title)), |cmd.title| > MaxTitleLength;
    var r3 := !(MinYear <= cmd.year <= MaxYear(currentYear));
    var r4 := !IsNullOrWhiteSpace(cmd.imdbId) && !MatchesImdbPattern(cmd.imdbId.value);
    var c1, c2 := Check(r1, "Title", TitleRequired), Check(r2, "Title", TitleTooLong);
    var c3, c4 := Check(r3, "Year", YearOutOfRange(currentYear)), Check(r4, "ImdbId", ImdbIdFormat);
    assert Validate(cmd, currentYear) == c1 + c2 + c3 + c4;
    MessagesForConcat(c1 + c2 + c3, c4, p);
    MessagesForConcat(c1 + c2, c3, p);
    MessagesForConcat(c1, c2, p);
    MessagesForCheck(r1, "Title", TitleRequired, p);
    MessagesForCheck(r2, "Title", TitleTooLong, p);
    MessagesForCheck(r3, "Year", YearOutOfRange(currentYear), p);
    MessagesForCheck(r4, "ImdbId", ImdbIdFormat, p);
  }

  /** Under each property the messages stand in the order the rules are declared,
      each at most once. These are the lists the handler's error map holds. */
  lemma ValidateMessages(cmd: CreateMovieCommand, currentYear: int)
    ensures MessagesFor(Validate(cmd, currentYear), "Title")
         == (if IsNullOrWhiteSpace(Some(cmd.title)) then [TitleRequired] else [])
          + (if |cmd.title| > MaxTitleLength then [TitleTooLong] else [])
    ensures MessagesFor(Validate(cmd, currentYear), "Year")
         == if !(MinYear <= cmd.year <= MaxYear(currentYear)) then [YearOutOfRange(currentYear)] else []
    ensures MessagesFor(Validate(cmd, currentYear), "ImdbId")
         == if !IsNullOrWhiteSpace(cmd.imdbId) && !MatchesImdbPattern(cmd.imdbId.value) then [ImdbIdFormat] else []
  {
    MessagesOfRules(cmd, currentYear, "Title");
    MessagesOfRules(cmd, currentYear, "Year");
    MessagesOfRules(cmd, currentYear, "ImdbId");
  }

  /** A blank IMDb id is never reported, whatever its length or content. */
  lemma BlankImdbIdNeverFails(cmd: CreateMovieCommand, currentYear: int)
    requires IsNullOrWhiteSpace(cmd.imdbId)
    ensures !Mentions(Validate(cmd, currentYear), "ImdbId")
  {
  }

  /** A command that passes validation is one `Movie.Create` accepts, for the same
      current year: the handler's call to the factory cannot throw. */
  lemma ValidatedCommandIsCreatable(cmd: CreateMovieCommand, currentYear: int, newId: Guids.NewGuid)
    requires Validate(cmd, currentYear) == []
    ensures Create(Some(cmd.title), cmd.year, cmd.imdbId, currentYear, newId).Created?
  {
  }
}
