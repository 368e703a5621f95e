/**
 * `MoviesController`: each action forwards to its handler and turns the handler's
 * `Result<T>` into an HTTP response with `ToActionResult`. Only that mapping and
 * the success response each action picks are modelled; routing, authorisation and
 * serialisation are not.
 */
module MoviesController {
  import opened Wrappers
  import opened Guids
  import opened Movies
  import opened Dtos
  import opened Repository
  import opened Results
  import CreateMovieValidation
  import CreateMovie
  import GetMovieById
  import ImportValidation
  import ImportMovies

  /** `ProblemDetails` / `ValidationProblemDetails`: status, title and detail. */
  datatype ProblemDetails = ProblemDetails(status: int, title: string, detail: Option<string>)

  /** The `IActionResult`s the controller can return. */
  datatype ActionResult<T> =
    | OkObject(value: T)                                    // Ok(value)
    | CreatedAtGetById(id: Guid, value: T)                  // CreatedAtAction(nameof(GetById), new { id }, value)
    | NotFoundObject(problem: ProblemDetails)               // NotFound(problemDetails)
    | ConflictObject(problem: ProblemDetails)               // Conflict(problemDetails)
    | BadRequestObject(problem: ProblemDetails, errors: ErrorMap)  // BadRequest(validationProblemDetails)
  {
    /** The HTTP status code the result writes. */
    function StatusCode(): int {
      match this
      case OkObject(_) => 200
      case CreatedAtGetById(_, _) => 201
      case NotFoundObject(_) => 404
      case ConflictObject(_) => 409
      case BadRequestObject(_, _) => 400
    }

    predicate IsProblem() {
      NotFoundObject? || ConflictObject? || BadRequestObject?
    }
  }

  /** `ToActionResult(result, onSuccess)`: the success response the action supplies,
      or a problem response whose status agrees with the status code written:
      404 "Not Found" and 409 "Conflict" carry `result.Error` as the detail, 400
      "Validation Error" carries the validation errors unchanged. */
  function ToActionResult<T>(result: Result<T>, onSuccess: T -> ActionResult<T>): (a: ActionResult<T>)
    ensures result.IsSuccess() ==> a == onSuccess(result.Value().value)
    ensures !result.IsSuccess() ==> a.IsProblem() && a.problem.status == a.StatusCode()
    ensures result.Type() == ResultType.NotFound <==> a.NotFoundObject? && !result.IsSuccess()
    ensures result.Type() == ResultType.Conflict <==> a.ConflictObject? && !result.IsSuccess()
    ensures result.Type() == ResultType.ValidationError <==> a.BadRequestObject? && !result.IsSuccess()
    ensures a.NotFoundObject? && !result.IsSuccess() ==> a.problem.title == "Not Found" && a.problem.detail == result.Error()
    ensures a.ConflictObject? && !result.IsSuccess() ==> a.problem.title == "Conflict" && a.problem.detail == result.Error()
    ensures a.BadRequestObject? && !result.IsSuccess() ==>
              a.problem.title == "Validation Error" && a.errors == result.ValidationErrors().value
  {
    match result.Type()
    case Success => onSuccess(result.Value().value)
    case NotFound => NotFoundObject(ProblemDetails(404, "Not Found", result.Error()))
    case Conflict => ConflictObject(ProblemDetails(409, "Conflict", result.Error()))
    case ValidationError =>
      BadRequestObject(ProblemDetails(400, "Validation Error", None), result.ValidationErrors().value)
  }

  /** Two failing results get the same status exactly when they are of the same kind. */
  lemma FailureStatusIdentifiesKind<T, U>(r1: Result<T>, f1: T -> ActionResult<T>, r2: Result<U>, f2: U -> ActionResult<U>)
    requires !r1.IsSuccess() && !r2.IsSuccess()
    ensures ToActionResult(r1, f1).StatusCode() == ToActionResult(r2, f2).StatusCode() <==> r1.Type() == r2.Type()
  {
  }

  /** A failing result is always answered with a 4xx status. */
  lemma FailureIsClientError<T>(r: Result<T>, onSuccess: T -> ActionResult<T>)
    requires !r.IsSuccess()
    ensures 400 <= ToActionResult(r, onSuccess).StatusCode() < 500
  {
  }

  // ---- the actions

  /** `Create`: 201 Created, pointing at `GetById` for the new id, with the response. */
  function CreateResponse(result: Result<MovieResponse>): (a: ActionResult<MovieResponse>)
    ensures a.CreatedAtGetById? <==> result.Success?
    ensures result.Success? ==> a.id == result.value.id && a.value == result.value
    ensures !result.Success? ==> a.IsProblem()
  {
    ToActionResult(result, (v: MovieResponse) => CreatedAtGetById(v.id, v))
  }

  /** `GetById`: 200 OK with the response. */
  function GetByIdResponse(result: Result<MovieResponse>): (a: ActionResult<MovieResponse>)
    ensures a.OkObject? <==> result.Success?
    ensures result.Success? ==> a.value == result.value
    ensures !result.Success? ==> a.IsProblem()
  {
    ToActionResult(result, (v: MovieResponse) => OkObject(v))
  }

  /** `ImportFromOmdb`: 200 OK with the imported responses. */
  function ImportResponse(result: Result<seq<MovieResponse>>): (a: ActionResult<seq<MovieResponse>>)
    ensures a.OkObject? <==> result.Success?
    ensures result.Success? ==> a.value == result.value
    ensures !result.Success? ==> a.IsProblem()
  {
    ToActionResult(result, (vs: seq<MovieResponse>) => OkObject(vs))
  }

  /** POST api/movies answers 201 for a new (title, year), 409 for a stored one and
      400 for an invalid command; never 404. */
  lemma CreateStatuses(rows: seq<Movie>, cmd: CreateMovieValidation.CreateMovieCommand, currentYear: int,
                       newId: NewGuid)
    ensures var a := CreateResponse(CreateMovie.Decide(rows, cmd, currentYear, newId).result);
            && (a.StatusCode() == 201 <==>
                  CreateMovieValidation.Validate(cmd, currentYear) == [] && !Exists(rows, cmd.title, cmd.year))
            && (a.StatusCode() == 409 <==>
                  CreateMovieValidation.Validate(cmd, currentYear) == [] && Exists(rows, cmd.title, cmd.year))
            && (a.StatusCode() == 400 <==> CreateMovieValidation.Validate(cmd, currentYear) != [])
            && a.StatusCode() != 404
  {
  }

  /** The 201 response names the id under which GET api/movies/{id} then answers
      200 with the same body, provided the Guid was not already in the table. */
  lemma CreatedResponseResolves(rows: seq<Movie>, cmd: CreateMovieValidation.CreateMovieCommand, currentYear: int,
                                newId: NewGuid)
    requires forall i :: 0 <= i < |rows| ==> rows[i].id != newId
    requires CreateMovie.Decide(rows, cmd, currentYear, newId).result.Success?
    ensures var e := CreateMovie.Decide(rows, cmd, currentYear, newId);
            var created := CreateResponse(e.result);
            && created.CreatedAtGetById?
            && GetByIdResponse(GetMovieById.Handle(e.rows, GetMovieById.GetMovieByIdQuery(created.id)))
               == OkObject(created.value)
  {
    GetMovieById.CreateThenGet(rows, cmd, currentYear, newId);
  }

  /** GET api/movies/{id} answers 200 when some row has the id and 404 otherwise. */
  lemma GetByIdStatuses(rows: seq<Movie>, id: Guid)
    ensures var a := GetByIdResponse(GetMovieById.Handle(rows, GetMovieById.GetMovieByIdQuery(id)));
            && (a.StatusCode() == 200 <==> exists i :: 0 <= i < |rows| && rows[i].id == id)
            && (a.StatusCode() == 404 <==> forall i :: 0 <= i < |rows| ==> rows[i].id != id)
  {
  }

  /** POST api/movies/import, when the handler returns, answers 400 for an invalid
      search term, 404 for an empty search and 200 otherwise; never 409. */
  lemma ImportStatuses(rows: seq<Movie>, cmd: ImportValidation.ImportMoviesFromOmdbCommand,
                       search: seq<OmdbMovieResult>, currentYear: int, newGuid: nat -> NewGuid)
    requires ImportMovies.Import(rows, cmd, search, currentYear, newGuid).outcome.Completed?
    ensures var a := ImportResponse(ImportMovies.Import(rows, cmd, search, currentYear, newGuid).outcome.result);
            && (a.StatusCode() == 400 <==> ImportValidation.Validate(cmd) != [])
            && (a.StatusCode() == 404 <==> ImportValidation.Validate(cmd) == [] && search == [])
            && (a.StatusCode() == 200 <==> ImportValidation.Validate(cmd) == [] && search != [])
            && a.StatusCode() != 409
  {
    var e := ImportMovies.Import(rows, cmd, search, currentYear, newGuid);
    if ImportValidation.Validate(cmd) == [] && search != [] {
      assert e.outcome.result.Success?;
    }
  }
}
