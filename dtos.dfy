/** The plain records passed between the layers. */
module Dtos {
  import opened Wrappers
  import opened Guids
  import opened Movies

  /** `MovieResponse`: the read-facing projection of a movie. */
  datatype MovieResponse = MovieResponse(id: Guid, title: string, year: int, imdbId: Option<string>)

  /** `OmdbMovieResult`: one entry of an external catalogue search, with its raw year text. */
  datatype OmdbMovieResult = OmdbMovieResult(title: string, year: string, imdbId: string)

  /** `new MovieResponse(movie.Id, movie.Title, movie.Year, movie.ImdbId)`. */
  function Project(m: Movie): (r: MovieResponse)
    ensures r.id == m.id && r.title == m.title && r.year == m.year && r.imdbId == m.imdbId
  {
    MovieResponse(m.id, m.title, m.year, m.imdbId)
  }

  function Projections(ms: seq<Movie>): seq<MovieResponse> {
    seq(|ms|, i requires 0 <= i < |ms| => Project(ms[i]))
  }
}
