/**
 * `GetMovieByIdQueryHandler.HandleAsync`: a read-only lookup that answers with the
 * stored movie's projection, or NotFound. It only reads the table, so it is a
 * function of the rows.
 */
module GetMovieById {
  import opened Wrappers
  import opened Text
  import opened Guids
  import opened Movies
  import opened Dtos
  import opened Repository
  import opened Results
  import CreateMovieValidation
  import CreateMovie

  /** `GetMovieByIdQuery(Id)`. */
  datatype GetMovieByIdQuery = GetMovieByIdQuery(id: Guid)

  function NotFoundMessage(id: Guid): string {
    "Movie with id '" + GuidText(id) + "' was not found."
  }

  /** `HandleAsync(query)` against the table `rows`. */
  function Handle(rows: seq<Movie>, query: GetMovieByIdQuery): (r: Result<MovieResponse>)
    ensures r.Success? || r.NotFound?
    ensures r.NotFound? <==> forall i :: 0 <= i < |rows| ==> rows[i].id != query.id
    ensures r.NotFound? ==> r.error == NotFoundMessage(query.id)
    ensures r.Success? ==> r.value.id == query.id
    ensures r.Success? ==> exists i :: 0 <= i < |rows| && r.value == Project(rows[i])
                                       && forall j :: 0 <= j < i ==> rows[j].id != query.id
  {
    var found := FindById(rows, query.id);
    if found.None? then Result.NotFound(NotFoundMessage(query.id))
    else Result.Success(Project(found.value))
  }

  /** The NotFound message names the id in its text form and says "not found". */
  lemma NotFoundMessageMentions(id: Guid)
    ensures Contains(NotFoundMessage(id), GuidText(id))
    ensures Contains(NotFoundMessage(id), "not found")
  {
    var head := "Movie with id '";
    ContainsMiddle(head, GuidText(id), "' was not found.");
    assert head + GuidText(id) + "' was not found." == NotFoundMessage(id);
    ContainsMiddle(head + GuidText(id) + "' was ", "not found", ".");
    assert head + GuidText(id) + "' was " + "not found" + "." == NotFoundMessage(id);
  }

  /** With distinct ids, a present id yields exactly the projection of its row. */
  lemma {:induction false} FindsStoredMovie(rows: seq<Movie>, k: nat)
    requires DistinctIds(rows) && k < |rows|
    ensures Handle(rows, GetMovieByIdQuery(rows[k].id)) == Result.Success(Project(rows[k]))
  {
    var r := Handle(rows, GetMovieByIdQuery(rows[k].id));
    var i :| 0 <= i < |rows| && r.value == Project(rows[i])
             && forall j :: 0 <= j < i ==> rows[j].id != rows[k].id;
    assert i == k;
  }

  /** A movie appended under an id no earlier row has is found, as itself. */
  lemma FindsAppended(rows: seq<Movie>, m: Movie)
    requires forall i :: 0 <= i < |rows| ==> rows[i].id != m.id
    ensures Handle(rows + [m], GetMovieByIdQuery(m.id)) == Result.Success(Project(m))
  {
    var all := rows + [m];
    var r := Handle(all, GetMovieByIdQuery(m.id));
    assert all[|rows|] == m;
    assert r.Success? && r.value.id == m.id;
    var i :| 0 <= i < |all| && r.value == Project(all[i]) && forall j :: 0 <= j < i ==> all[j].id != m.id;
    assert forall j :: 0 <= j < |rows| ==> all[j] == rows[j];
    assert all[i].id == m.id;
    assert i == |rows|;
  }

  /** Round trip: after a successful create with a Guid not yet in the table, looking
      up the returned id answers with the very response the create returned. */
  lemma {:induction false} CreateThenGet(rows: seq<Movie>, cmd: CreateMovieValidation.CreateMovieCommand,
                                         currentYear: int, newId: NewGuid)
    requires forall i :: 0 <= i < |rows| ==> rows[i].id != newId
    requires CreateMovie.Decide(rows, cmd, currentYear, newId).result.Success?
    ensures var e := CreateMovie.Decide(rows, cmd, currentYear, newId);
            Handle(e.rows, GetMovieByIdQuery(e.result.value.id)) == e.result
  {
    var e := CreateMovie.Decide(rows, cmd, currentYear, newId);
    var m := e.rows[|rows|];
    assert e.rows == rows + [m];
    FindsAppended(rows, m);
  }
}
