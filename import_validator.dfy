/** `ImportMoviesFromOmdbCommandValidator`: the SearchTerm rules. */
module ImportValidation {
  import opened Wrappers
  import opened Text
  import opened Validation

  /** `ImportMoviesFromOmdbCommand(SearchTerm)`. */
  datatype ImportMoviesFromOmdbCommand = ImportMoviesFromOmdbCommand(searchTerm: string)

  const MinSearchTermLength: nat := 2

  const SearchTermRequired: string := "Search term is required."
  const SearchTermTooShort: string := "Search term must be at least 2 characters."

  /** `NotEmpty()` then `MinimumLength(2)` on SearchTerm; the length is that of the
      text as given, not trimmed, and both rules are checked. */
  function Validate(cmd: ImportMoviesFromOmdbCommand): (fs: seq<ValidationFailure>)
    ensures fs == [] <==> !IsNullOrWhiteSpace(Some(cmd.searchTerm)) && |cmd.searchTerm| >= MinSearchTermLength
    ensures forall p, m :: Reports(fs, p, m) <==>
              || (p == "SearchTerm" && m == SearchTermRequired && IsNullOrWhiteSpace(Some(cmd.searchTerm)))
              || (p == "SearchTerm" && m == SearchTermTooShort && |cmd.searchTerm| < MinSearchTermLength)
    ensures forall p :: Mentions(fs, p) <==> p == "SearchTerm" && fs != []
  {
    var blank := IsNullOrWhiteSpace(Some(cmd.searchTerm));
    var short := |cmd.searchTerm| < MinSearchTermLength;
    var c1 := Check(blank, "SearchTerm", SearchTermRequired);
    var c2 := Check(short, "SearchTerm", SearchTermTooShort);
    CheckFacts(blank, "SearchTerm", SearchTermRequired);
    CheckFacts(short, "SearchTerm", SearchTermTooShort);
    Concat(c1, c2);
    c1 + c2
  }

  /** The SearchTerm messages stand in rule order, each at most once. */
  lemma ValidateMessages(cmd: ImportMoviesFromOmdbCommand)
    ensures MessagesFor(Validate(cmd), "SearchTerm")
         == (if IsNullOrWhiteSpace(Some(cmd.searchTerm)) then [SearchTermRequired] else [])
          + (if |cmd.searchTerm| < MinSearchTermLength then [SearchTermTooShort] else [])
  {
    var c1 := Check(IsNullOrWhiteSpace(Some(cmd.searchTerm)), "SearchTerm", SearchTermRequired);
    var c2 := Check(|cmd.searchTerm| < MinSearchTermLength, "SearchTerm", SearchTermTooShort);
    assert Validate(cmd) == c1 + c2;
    MessagesForConcat(c1, c2, "SearchTerm");
    MessagesForCheck(IsNullOrWhiteSpace(Some(cmd.searchTerm)), "SearchTerm", SearchTermRequired, "SearchTerm");
    MessagesForCheck(|cmd.searchTerm| < MinSearchTermLength, "SearchTerm", SearchTermTooShort, "SearchTerm");
  }

  /** The empty term fails both rules. */
  lemma EmptyTermFailsTwice()
    ensures |Validate(ImportMoviesFromOmdbCommand(""))| == 2
  {
  }

  /** No trimming happens first: a two-character term with one space passes,
      although its trimmed text has a single character. */
  lemma UntrimmedLengthCounts()
    ensures Validate(ImportMoviesFromOmdbCommand(" a")) == []
    ensures |Trim(" a")| == 1
  {
    assert !IsWhiteSpace('a');
    assert !AllWhiteSpace(" a") by { assert !IsWhiteSpace(" a"[1]); }
    assert TrimStart(" a") == "a";
    assert TrimEnd("a") == "a";
  }
}
