/**
 * The movie store, as the SQL of `MovieRepository` defines it: a table of rows,
 * `SELECT ... WHERE id = @Id`, `SELECT EXISTS(... WHERE title = @Title AND year = @Year)`
 * and `INSERT`, which appends a row.
 */
module Repository {
  import opened Wrappers
  import opened Guids
  import opened Movies

  /** Some row has exactly this title and year. */
  predicate Exists(rows: seq<Movie>, title: string, year: int) {
    exists i :: 0 <= i < |rows| && rows[i].title == title && rows[i].year == year
  }

  /** The first row with this id, if any. */
  function FindById(rows: seq<Movie>, id: Guid): (r: Option<Movie>)
    ensures r.None? <==> forall i :: 0 <= i < |rows| ==> rows[i].id != id
    ensures r.Some? ==> exists i :: 0 <= i < |rows| && rows[i] == r.value
                                   && r.value.id == id
                                   && forall j :: 0 <= j < i ==> rows[j].id != id
  {
    if rows == [] then None
    else if rows[0].id == id then
      Some(rows[0])
    else
      var r := FindById(rows[1..], id);
      if r.Some? then
        var i :| 0 <= i < |rows[1..]| && rows[1..][i] == r.value && r.value.id == id
                 && forall j :: 0 <= j < i ==> rows[1..][j].id != id;
        assert rows[i + 1] == r.value;
        assert forall j :: 0 <= j < i + 1 ==> rows[j].id != id by {
          forall j | 0 <= j < i + 1 ensures rows[j].id != id {
            if j > 0 { assert rows[j] == rows[1..][j - 1]; }
          }
        }
        r
      else
        assert forall i :: 1 <= i < |rows| ==> rows[i] == rows[1..][i - 1];
        r
  }

  /** Rows only ever added: a row found in a prefix of the table is still found. */
  lemma {:induction false} ExistsInExtension(rows: seq<Movie>, more: seq<Movie>, title: string, year: int)
    ensures Exists(rows, title, year) ==> Exists(rows + more, title, year)
    ensures Exists(rows + more, title, year) <==> Exists(rows, title, year) || Exists(more, title, year)
  {
    var all := rows + more;
    if Exists(rows, title, year) {
      var i :| 0 <= i < |rows| && rows[i].title == title && rows[i].year == year;
      assert all[i] == rows[i];
    }
    if Exists(more, title, year) {
      var i :| 0 <= i < |more| && more[i].title == title && more[i].year == year;
      assert all[|rows| + i] == more[i];
    }
    if Exists(all, title, year) {
      var i :| 0 <= i < |all| && all[i].title == title && all[i].year == year;
      if i < |rows| { assert rows[i] == all[i]; } else { assert more[i - |rows|] == all[i]; }
    }
  }

  /** No two rows share an id. */
  ghost predicate DistinctIds(rows: seq<Movie>) {
    forall i, j :: 0 <= i < j < |rows| ==> rows[i].id != rows[j].id
  }

  /** `MovieRepository`: the `movies` table, changed only by `CreateAsync`. */
  class MovieRepository {
    var rows: seq<Movie>

    constructor (initial: seq<Movie>)
      ensures rows == initial
    {
      rows := initial;
    }

    /** `GetByIdAsync`: the row with this id, or null. */
    function GetById(id: Guid): (r: Option<Movie>)
      reads this
      ensures r.None? <==> forall m :: m in rows ==> m.id != id
      ensures r.Some? ==> r.value in rows && r.value.id == id
    {
      FindById(rows, id)
    }

    /** `ExistsByTitleAndYearAsync`: exact comparison of title and year. */
    function ExistsByTitleAndYear(title: string, year: int): (b: bool)
      reads this
      ensures b <==> exists m :: m in rows && m.title == title && m.year == year
    {
      Exists(rows, title, year)
    }

    /** `CreateAsync`: inserts one row. */
    method Create(movie: Movie)
      modifies this
      ensures rows == old(rows) + [movie]
    {
      rows := rows + [movie];
    }
  }
}
