/**
 * `CreateMovieCommandHandler.HandleAsync`: validate, refuse a duplicate
 * (title, year), otherwise create the movie, insert it and answer with its
 * projection. `Decide` is what one call does to the result and the table;
 * `Handle` performs it on the repository.
 */
module CreateMovie {
  import opened Wrappers
  import opened Text
  import opened Guids
  import opened Movies
  import opened Dtos
  import opened Repository
  import opened Results
  import opened Validation
  import opened CreateMovieValidation

  /** The handler's answer together with the table it leaves behind. */
  datatype CreateEffect = CreateEffect(result: Result<MovieResponse>, rows: seq<Movie>)

  function ConflictMessage(title: string, year: int): string {
    "A movie with title '" + title + "' and year " + IntToString(year) + " already exists."
  }

  /** One call of the handler on a table `rows`. The duplicate check compares the
      command's title as given, before the factory trims it. */
  function Decide(rows: seq<Movie>, cmd: CreateMovieCommand, currentYear: int, newId: NewGuid): (e: CreateEffect)
    ensures e.result.ValidationError? <==> Validate(cmd, currentYear) != []
    ensures e.result.ValidationError? ==> e.result.errors == GroupByProperty(Validate(cmd, currentYear))
    ensures e.result.Conflict? <==> Validate(cmd, currentYear) == [] && Exists(rows, cmd.title, cmd.year)
    ensures e.result.Conflict? ==> e.result.error == ConflictMessage(cmd.title, cmd.year)
    ensures e.result.Success? <==> Validate(cmd, currentYear) == [] && !Exists(rows, cmd.title, cmd.year)
    ensures !e.result.NotFound?
    ensures !e.result.Success? ==> e.rows == rows
    ensures e.result.Success? ==>
              && |e.rows| == |rows| + 1 && e.rows[..|rows|] == rows
              && e.result.value == Project(e.rows[|rows|])
    ensures e.result.Success? ==>
              var m := e.rows[|rows|];
              && m.id == newId
              && m.title == Trim(cmd.title)
              && m.year == cmd.year
              && m.imdbId == NormalizeImdbId(cmd.imdbId)
              && IsWellFormed(m) && m.year <= MaxYear(currentYear)
  {
    var failures := Validate(cmd, currentYear);
    if failures != [] then
      CreateEffect(Result.ValidationError(GroupByProperty(failures)), rows)
    else if Exists(rows, cmd.title, cmd.year) then
      CreateEffect(Result.Conflict(ConflictMessage(cmd.title, cmd.year)), rows)
    else
      ValidatedCommandIsCreatable(cmd, currentYear, newId);
      var m := Create(Some(cmd.title), cmd.year, cmd.imdbId, currentYear, newId).movie;
      assert (rows + [m])[..|rows|] == rows;
      CreateEffect(Result.Success(Project(m)), rows + [m])
  }

  /** `HandleAsync(command)` on the repository. */
  method Handle(repo: MovieRepository, cmd: CreateMovieCommand, currentYear: int, newId: NewGuid)
      returns (result: Result<MovieResponse>)
    modifies repo
    ensures CreateEffect(result, repo.rows) == Decide(old(repo.rows), cmd, currentYear, newId)
  {
    var failures := Validate(cmd, currentYear);
    if failures != [] {
      var errors := GroupByProperty(failures);
      return Result.ValidationError(errors);
    }
    var duplicate := repo.ExistsByTitleAndYear(cmd.title, cmd.year);
    if duplicate {
      return Result.Conflict(ConflictMessage(cmd.title, cmd.year));
    }
    ValidatedCommandIsCreatable(cmd, currentYear, newId);
    var movie := Create(Some(cmd.title), cmd.year, cmd.imdbId, currentYear, newId).movie;
    repo.Create(movie);
    result := Result.Success(Project(movie));
  }

  /** The conflict message says "already exists" and names the title as given. */
  lemma ConflictMessageMentions(title: string, year: int)
    ensures Contains(ConflictMessage(title, year), "already exists")
    ensures Contains(ConflictMessage(title, year), title)
  {
    var head := "A movie with title '";
    var number := IntToString(year);
    var ending := " already exists.";
    var tail := "' and year " + number + ending;
    assert ConflictMessage(title, year) == head + title + tail;
    ContainsMiddle(head, title, tail);
    assert ending == " " + "already exists" + ".";
    var front := head + title + "' and year " + number + " ";
    assert ConflictMessage(title, year) == front + "already exists" + ".";
    ContainsMiddle(front, "already exists", ".");
  }

  /** Every row in the table stays well formed across a call. */
  lemma {:induction false} PreservesWellFormed(rows: seq<Movie>, cmd: CreateMovieCommand, currentYear: int, newId: NewGuid)
    requires forall i :: 0 <= i < |rows| ==> IsWellFormed(rows[i])
    ensures var e := Decide(rows, cmd, currentYear, newId);
            forall i :: 0 <= i < |e.rows| ==> IsWellFormed(e.rows[i])
  {
    var e := Decide(rows, cmd, currentYear, newId);
    if e.result.Success? {
      forall i | 0 <= i < |e.rows| ensures IsWellFormed(e.rows[i]) {
        if i < |rows| { assert e.rows[i] == e.rows[..|rows|][i]; }
      }
    }
  }

  /** With a Guid not yet in the table, ids stay distinct. */
  lemma {:induction false} PreservesDistinctIds(rows: seq<Movie>, cmd: CreateMovieCommand, currentYear: int, newId: NewGuid)
    requires DistinctIds(rows)
    requires forall i :: 0 <= i < |rows| ==> rows[i].id != newId
    ensures DistinctIds(Decide(rows, cmd, currentYear, newId).rows)
  {
    var e := Decide(rows, cmd, currentYear, newId);
    if e.result.Success? {
      forall i, j | 0 <= i < j < |e.rows| ensures e.rows[i].id != e.rows[j].id {
        assert e.rows[i] == e.rows[..|rows|][i];
        if j < |rows| { assert e.rows[j] == e.rows[..|rows|][j]; }
      }
    }
  }

  /** Once created, the same command conflicts: the table now holds its (title, year)
      whenever the title was already trimmed. */
  lemma {:induction false} SecondCreateConflicts(rows: seq<Movie>, cmd: CreateMovieCommand, currentYear: int,
                                                 newId: NewGuid, otherId: NewGuid)
    requires PassesRules(cmd, currentYear) && !Exists(rows, cmd.title, cmd.year)
    requires IsTrimmed(cmd.title)
    ensures Decide(Decide(rows, cmd, currentYear, newId).rows, cmd, currentYear, otherId).result
         == Result.Conflict(ConflictMessage(cmd.title, cmd.year))
  {
    var e := Decide(rows, cmd, currentYear, newId);
    TrimOfTrimmed(cmd.title);
    assert e.rows[|rows|].title == cmd.title;
    assert e.rows[|rows|].year == cmd.year;
  }

  /** The duplicate check does not trim: " Inception" is accepted beside a stored
      "Inception" of the same year, leaving two rows with equal title and year. */
  lemma UntrimmedTitleDuplicates(id: Guid, newId: NewGuid)
    ensures var rows := [Movie(id, "Inception", 2010, None)];
            var e := Decide(rows, CreateMovieCommand(" Inception", 2010, None), 2026, newId);
            && e.result.Success?
            && |e.rows| == 2
            && e.rows[0].title == e.rows[1].title == "Inception"
            && e.rows[0].year == e.rows[1].year == 2010
  {
    var rows := [Movie(id, "Inception", 2010, None)];
    var cmd := CreateMovieCommand(" Inception", 2010, None);
    assert !IsWhiteSpace('I') && !IsWhiteSpace('n');
    assert !IsNullOrWhiteSpace(Some(cmd.title)) by { assert !IsWhiteSpace(cmd.title[1]); }
    assert Validate(cmd, 2026) == [];
    assert !Exists(rows, cmd.title, cmd.year) by { assert rows[0].title != cmd.title; }
    assert TrimStart(" Inception") == TrimStart("Inception");
    TrimOfTrimmed("Inception");
  }
}
