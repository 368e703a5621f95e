/**
 * What the import loop guarantees, stated independently of `Run`: the movies
 * it inserts come, one each and in order, from a subsequence of the search
 * entries; every other entry it reached it skips without an insert; and an
 * exception stops it after the inserts before it have been kept.
 */
module ImportProperties {
  import opened Wrappers
  import opened Text
  import opened Guids
  import opened Movies
  import opened Dtos
  import opened Repository
  import opened Results
  import opened Validation
  import opened ImportValidation
  import opened ImportMovies

  /** Where the `k`-th gap between picked positions begins: at the start, or just
      after the `k`-th pick. */
  function GapStart(picked: seq<nat>, k: nat): nat
    requires k <= |picked|
  {
    if k == 0 then 0 else picked[k - 1] + 1
  }

  /** Where the `k`-th gap ends: at the next pick, or at `end` after the last one. */
  function GapEnd(picked: seq<nat>, k: nat, end: nat): nat
    requires k <= |picked|
  {
    if k == |picked| then end else picked[k]
  }

  /** Position `j` lies in the `k`-th gap between the picks, before `end`. */
  predicate InGap(picked: seq<nat>, end: nat, k: nat, j: nat) {
    k <= |picked| && GapStart(picked, k) <= j < GapEnd(picked, k, end)
  }

  /** Candidate `j` is skipped against the rows plus the first `k` inserts. */
  predicate SkippedAfter(rows: seq<Movie>, cs: seq<Candidate>, inserted: seq<Movie>, k: nat, j: nat) {
    k <= |inserted| && j < |cs| && Skippable(rows + inserted[..k], cs[j])
  }

  /** The movies `inserted`, drawn from the candidates at the strictly increasing
      positions `picked`, are what the loop inserts over the first `end` entries.
      Each is the decision for its candidate against the table as it stood at that
      moment. Every other candidate before `end` lies in a gap between two picks,
      and is skipped against the table as it stood then: the rows plus the movies
      inserted before it. */
  ghost predicate IsTrace(rows: seq<Movie>, cs: seq<Candidate>, inserted: seq<Movie>, picked: seq<nat>, end: nat)
  {
    && end <= |cs| && |picked| == |inserted|
    && (forall k :: 0 <= k < |picked| ==> picked[k] < end)
    && (forall k, l :: 0 <= k < l < |picked| ==> picked[k] < picked[l])
    && (forall k :: 0 <= k < |picked| ==> DecideEntry(rows + inserted[..k], cs[picked[k]]) == Inserted(inserted[k]))
    && (forall k: nat, j: nat :: InGap(picked, end, k, j) ==> SkippedAfter(rows, cs, inserted, k, j))
  }

  /** How far a run got: up to the entry that threw, or all `n` entries. */
  function End(run: ImportRun, n: nat): nat {
    if run.failure.Some? then run.failure.value.index else n
  }

  lemma {:induction false} RunShape(rows: seq<Movie>, cs: seq<Candidate>, n: nat)
    requires n <= |cs|
    ensures var run := Run(rows, cs, n);
            && |run.picked| == |run.inserted|
            && End(run, n) <= n
            && (forall k :: 0 <= k < |run.picked| ==> run.picked[k] < End(run, n))
            && (forall k, l :: 0 <= k < l < |run.picked| ==> run.picked[k] < run.picked[l])
  {
    if n > 0 {
      RunShape(rows, cs, n - 1);
    }
  }

  /** Each movie of `inserted` is the decision for its candidate against the table
      extended by the movies before it. */
  ghost predicate InsertsInOrder(rows: seq<Movie>, cs: seq<Candidate>, inserted: seq<Movie>, picked: seq<nat>) {
    && |picked| == |inserted|
    && (forall k :: 0 <= k < |picked| ==> picked[k] < |cs|)
    && (forall k :: 0 <= k < |picked| ==> DecideEntry(rows + inserted[..k], cs[picked[k]]) == Inserted(inserted[k]))
  }

  lemma InsertsInOrderAppend(rows: seq<Movie>, cs: seq<Candidate>, inserted: seq<Movie>, picked: seq<nat>,
                             i: nat, m: Movie)
    requires InsertsInOrder(rows, cs, inserted, picked)
    requires i < |cs| && DecideEntry(rows + inserted, cs[i]) == Inserted(m)
    ensures InsertsInOrder(rows, cs, inserted + [m], picked + [i])
  {
    var ins, pks := inserted + [m], picked + [i];
    forall k | 0 <= k < |pks| ensures DecideEntry(rows + ins[..k], cs[pks[k]]) == Inserted(ins[k]) {
      if k < |picked| {
        assert ins[..k] == inserted[..k];
      } else {
        assert ins[..k] == inserted;
      }
    }
  }

  lemma {:induction false} RunInserted(rows: seq<Movie>, cs: seq<Candidate>, n: nat)
    requires n <= |cs|
    ensures var run := Run(rows, cs, n);
            InsertsInOrder(rows, cs, run.inserted, run.picked)
  {
    if n > 0 {
      RunInserted(rows, cs, n - 1);
      var prev := Run(rows, cs, n - 1);
      var d := DecideEntry(rows + prev.inserted, cs[n - 1]);
      if prev.failure.None? && d.Inserted? {
        InsertsInOrderAppend(rows, cs, prev.inserted, prev.picked, n - 1, d.movie);
      }
    }
  }

  /** Rows are only added, so a skipped candidate stays skipped. */
  lemma SkippableGrows(rows: seq<Movie>, more: seq<Movie>, c: Candidate)
    requires Skippable(rows, c)
    ensures Skippable(rows + more, c)
  {
    if c.Candidate? {
      ExistsInExtension(rows, more, c.title, c.year);
    }
  }

  /** Every candidate reached and not picked is skipped against the table as it
      stood when the loop came to it. */
  lemma {:induction false} RunSkipped(rows: seq<Movie>, cs: seq<Candidate>, n: nat)
    requires n <= |cs|
    ensures var run := Run(rows, cs, n);
            && |run.picked| == |run.inserted| && End(run, n) <= n
            && (forall k :: 0 <= k < |run.picked| ==> run.picked[k] < End(run, n))
            && (forall k: nat, j: nat :: InGap(run.picked, End(run, n), k, j) ==> SkippedAfter(rows, cs, run.inserted, k, j))
  {
    RunShape(rows, cs, n);
    if n > 0 {
      RunSkipped(rows, cs, n - 1);
      var prev := Run(rows, cs, n - 1);
      var run := Run(rows, cs, n);
      if prev.failure.None? {
        var p, ins := prev.picked, prev.inserted;
        var d := DecideEntry(rows + ins, cs[n - 1]);
        if d.Inserted? {
          assert run.inserted == ins + [d.movie] && run.picked == p + [n - 1];
          forall k: nat, j: nat | InGap(run.picked, n, k, j) ensures SkippedAfter(rows, cs, run.inserted, k, j)
          {
            assert k <= |p|;
            assert GapStart(run.picked, k) == GapStart(p, k);
            assert GapEnd(run.picked, k, n) == GapEnd(p, k, n - 1);
            assert InGap(p, n - 1, k, j);
            assert run.inserted[..k] == ins[..k];
          }
        } else if d.Aborted? {
          assert run.inserted == ins && run.picked == p && End(run, n) == n - 1;
        } else {
          assert run == prev && End(run, n) == n;
          forall k: nat, j: nat | InGap(p, n, k, j) ensures SkippedAfter(rows, cs, ins, k, j) {
            if j < n - 1 || k < |p| {
              assert InGap(p, n - 1, k, j);
            } else {
              assert ins[..k] == ins;
            }
          }
        }
      }
    }
  }

  /** Every candidate reached and not picked is skipped also against the final table. */
  lemma {:induction false} RunSkippedAtEnd(rows: seq<Movie>, cs: seq<Candidate>, n: nat)
    requires n <= |cs|
    ensures var run := Run(rows, cs, n);
            End(run, n) <= n &&
            forall j :: 0 <= j < End(run, n) && j !in run.picked ==> Skippable(rows + run.inserted, cs[j])
  {
    RunShape(rows, cs, n);
    if n > 0 {
      RunSkippedAtEnd(rows, cs, n - 1);
      var prev := Run(rows, cs, n - 1);
      var run := Run(rows, cs, n);
      if prev.failure.None? {
        var d := DecideEntry(rows + prev.inserted, cs[n - 1]);
        match d
        case Unparsable =>
          assert run == prev;
        case AlreadyStored =>
          assert run == prev;
        case Inserted(m) =>
          assert run.inserted == prev.inserted + [m] && run.picked == prev.picked + [n - 1];
          forall j | 0 <= j < n && j !in run.picked ensures Skippable(rows + run.inserted, cs[j]) {
            assert j != n - 1 && j !in prev.picked;
            SkippableGrows(rows + prev.inserted, [m], cs[j]);
            assert rows + run.inserted == (rows + prev.inserted) + [m];
          }
        case Aborted(e) =>
          assert run.inserted == prev.inserted && run.picked == prev.picked && End(run, n) == n - 1;
      }
    }
  }

  lemma {:induction false} RunFailure(rows: seq<Movie>, cs: seq<Candidate>, n: nat)
    requires n <= |cs|
    ensures var run := Run(rows, cs, n);
            run.failure.Some? ==>
              && run.failure.value.index < n
              && DecideEntry(rows + run.inserted, cs[run.failure.value.index]) == Aborted(run.failure.value.error)
  {
    if n > 0 {
      RunFailure(rows, cs, n - 1);
    }
  }

  /** `Run` meets the trace description, and a run that stops does so at a
      candidate whose factory call throws against the table as it stood then. */
  lemma RunIsTrace(rows: seq<Movie>, cs: seq<Candidate>, n: nat)
    requires n <= |cs|
    ensures var run := Run(rows, cs, n);
            && IsTrace(rows, cs, run.inserted, run.picked, End(run, n))
            && (run.failure.Some? ==>
                  && run.failure.value.index < n
                  && DecideEntry(rows + run.inserted, cs[run.failure.value.index]) == Aborted(run.failure.value.error))
  {
    RunShape(rows, cs, n);
    RunInserted(rows, cs, n);
    RunSkipped(rows, cs, n);
    RunFailure(rows, cs, n);
  }

  /** A trace whose last pick is its last position is the shorter trace before
      it, followed by that insert. */
  lemma TraceDropInsert(rows: seq<Movie>, cs: seq<Candidate>, inserted: seq<Movie>, picked: seq<nat>, end: nat)
    requires IsTrace(rows, cs, inserted, picked, end)
    requires |picked| > 0 && picked[|picked| - 1] == end - 1
    ensures IsTrace(rows, cs, inserted[..|picked| - 1], picked[..|picked| - 1], end - 1)
    ensures DecideEntry(rows + inserted[..|picked| - 1], cs[end - 1]) == Inserted(inserted[|picked| - 1])
    ensures inserted == inserted[..|picked| - 1] + [inserted[|picked| - 1]]
    ensures picked == picked[..|picked| - 1] + [end - 1]
  {
    var last := |picked| - 1;
    var ins0, p0 := inserted[..last], picked[..last];
    forall k: nat, j: nat | InGap(p0, end - 1, k, j) ensures SkippedAfter(rows, cs, ins0, k, j) {
      assert GapStart(p0, k) == GapStart(picked, k);
      assert GapEnd(p0, k, end - 1) == GapEnd(picked, k, end);
      assert InGap(picked, end, k, j);
      assert ins0[..k] == inserted[..k];
    }
    forall k | 0 <= k < |p0| ensures DecideEntry(rows + ins0[..k], cs[p0[k]]) == Inserted(ins0[k]) {
      assert ins0[..k] == inserted[..k];
    }
    assert forall k :: 0 <= k < |p0| ==> p0[k] < picked[last];
    assert inserted == ins0 + [inserted[last]];
    assert picked == p0 + [end - 1];
  }

  /** A trace whose last position is not picked is the shorter trace before it,
      followed by a skip against the rows plus all its inserts. */
  lemma TraceDropSkip(rows: seq<Movie>, cs: seq<Candidate>, inserted: seq<Movie>, picked: seq<nat>, end: nat)
    requires IsTrace(rows, cs, inserted, picked, end)
    requires end > 0 && (|picked| == 0 || picked[|picked| - 1] < end - 1)
    ensures IsTrace(rows, cs, inserted, picked, end - 1)
    ensures Skippable(rows + inserted, cs[end - 1])
  {
    assert forall k :: 0 <= k < |picked| ==> picked[k] < end - 1 by {
      forall k | 0 <= k < |picked| ensures picked[k] < end - 1 {
        if k < |picked| - 1 { assert picked[k] < picked[|picked| - 1]; }
      }
    }
    forall k: nat, j: nat | InGap(picked, end - 1, k, j) ensures SkippedAfter(rows, cs, inserted, k, j) {
      assert InGap(picked, end, k, j);
    }
    assert InGap(picked, end, |picked|, end - 1);
    assert SkippedAfter(rows, cs, inserted, |picked|, end - 1);
    assert inserted[..|picked|] == inserted;
  }

  /** Strictly increasing positions below `end` number at most `end`. */
  lemma {:induction false} PicksFit(picked: seq<nat>, end: nat)
    requires forall k :: 0 <= k < |picked| ==> picked[k] < end
    requires forall k, l :: 0 <= k < l < |picked| ==> picked[k] < picked[l]
    ensures |picked| <= end
  {
    if |picked| > 0 {
      PicksFit(picked[..|picked| - 1], picked[|picked| - 1]);
    }
  }

  /** The converse: a trace over the first `end` candidates is what the loop does
      over them, so no other choice of inserts or skips meets the description. */
  lemma {:induction false} TraceIsRun(rows: seq<Movie>, cs: seq<Candidate>, inserted: seq<Movie>, picked: seq<nat>,
                                      end: nat)
    requires IsTrace(rows, cs, inserted, picked, end)
    ensures Run(rows, cs, end) == ImportRun(inserted, picked, None)
    decreases end, 1
  {
    if end == 0 {
      PicksFit(picked, end);
    } else if |picked| > 0 && picked[|picked| - 1] == end - 1 {
      TraceIsRunInsert(rows, cs, inserted, picked, end);
    } else {
      TraceIsRunSkip(rows, cs, inserted, picked, end);
    }
  }

  lemma {:induction false} TraceIsRunInsert(rows: seq<Movie>, cs: seq<Candidate>, inserted: seq<Movie>,
                                            picked: seq<nat>, end: nat)
    requires IsTrace(rows, cs, inserted, picked, end)
    requires |picked| > 0 && picked[|picked| - 1] == end - 1
    ensures Run(rows, cs, end) == ImportRun(inserted, picked, None)
    decreases end, 0
  {
    var last := |picked| - 1;
    var ins0, p0 := inserted[..last], picked[..last];
    TraceDropInsert(rows, cs, inserted, picked, end);
    TraceIsRun(rows, cs, ins0, p0, end - 1);
    RunStep(rows, cs, end - 1, ins0, p0);
  }

  lemma {:induction false} TraceIsRunSkip(rows: seq<Movie>, cs: seq<Candidate>, inserted: seq<Movie>,
                                          picked: seq<nat>, end: nat)
    requires IsTrace(rows, cs, inserted, picked, end)
    requires end > 0 && (|picked| == 0 || picked[|picked| - 1] < end - 1)
    ensures Run(rows, cs, end) == ImportRun(inserted, picked, None)
    decreases end, 0
  {
    TraceDropSkip(rows, cs, inserted, picked, end);
    TraceIsRun(rows, cs, inserted, picked, end - 1);
    RunStep(rows, cs, end - 1, inserted, picked);
  }

  /** Two traces over the same candidates and the same stretch are the same. */
  lemma TraceDetermined(rows: seq<Movie>, cs: seq<Candidate>, end: nat,
                        inserted1: seq<Movie>, picked1: seq<nat>, inserted2: seq<Movie>, picked2: seq<nat>)
    requires IsTrace(rows, cs, inserted1, picked1, end)
    requires IsTrace(rows, cs, inserted2, picked2, end)
    ensures inserted1 == inserted2 && picked1 == picked2
  {
    TraceIsRun(rows, cs, inserted1, picked1, end);
    TraceIsRun(rows, cs, inserted2, picked2, end);
  }

  lemma {:induction false} RunAllSkipped(rows: seq<Movie>, cs: seq<Candidate>, n: nat)
    requires n <= |cs|
    requires forall j :: 0 <= j < |cs| ==> Skippable(rows, cs[j])
    ensures Run(rows, cs, n) == ImportRun([], [], None)
  {
    if n > 0 {
      RunAllSkipped(rows, cs, n - 1);
      assert rows + [] == rows;
    }
  }

  // ---- the trace in terms of the search entries

  /** `m` is the movie the loop inserts for `entry` against the table `rows`: its
      year parses, no row has its (title, year), and `Movie.Create` returns `m` for
      it, so `m` carries the trimmed title, the parsed year, the normalised IMDb id
      and the entry's Guid. */
  ghost predicate InsertedFrom(rows: seq<Movie>, entry: OmdbMovieResult, currentYear: int, id: NewGuid, m: Movie) {
    && ParseYear(entry.year) == Some(m.year)
    && !Exists(rows, entry.title, m.year)
    && Create(Some(entry.title), m.year, Some(entry.imdbId), currentYear, id) == Created(m)
  }

  /** Entry `j` is skipped against the rows plus the first `k` inserts. */
  ghost predicate EntrySkippedAfter(rows: seq<Movie>, es: seq<OmdbMovieResult>, inserted: seq<Movie>, k: nat, j: nat) {
    k <= |inserted| && j < |es| && EntrySkipped(rows + inserted[..k], es[j])
  }

  /** The trace over the raw search entries: the movies inserted come, one each
      and in order, from the entries at `picked`, each against the table as it
      stood then; every other entry before `end` has no parsable year or a
      (title, year) stored at the moment the loop reached it. */
  ghost predicate IsImportTrace(rows: seq<Movie>, es: seq<OmdbMovieResult>, currentYear: int, newGuid: nat -> NewGuid,
                                inserted: seq<Movie>, picked: seq<nat>, end: nat)
  {
    && end <= |es| && |picked| == |inserted|
    && (forall k :: 0 <= k < |picked| ==> picked[k] < end)
    && (forall k, l :: 0 <= k < l < |picked| ==> picked[k] < picked[l])
    && (forall k :: 0 <= k < |picked| ==>
          InsertedFrom(rows + inserted[..k], es[picked[k]], currentYear, newGuid(picked[k]), inserted[k]))
    && (forall k: nat, j: nat :: InGap(picked, end, k, j) ==> EntrySkippedAfter(rows, es, inserted, k, j))
  }

  lemma TraceOfEntries(rows: seq<Movie>, es: seq<OmdbMovieResult>, currentYear: int, newGuid: nat -> NewGuid,
                       inserted: seq<Movie>, picked: seq<nat>, end: nat)
    requires IsTrace(rows, Candidates(es, currentYear, newGuid), inserted, picked, end)
    ensures IsImportTrace(rows, es, currentYear, newGuid, inserted, picked, end)
  {
    var cs := Candidates(es, currentYear, newGuid);
    forall k | 0 <= k < |picked|
      ensures InsertedFrom(rows + inserted[..k], es[picked[k]], currentYear, newGuid(picked[k]), inserted[k])
    {
      CandidateAt(es, currentYear, newGuid, picked[k]);
    }
    forall k: nat, j: nat | InGap(picked, end, k, j) ensures EntrySkippedAfter(rows, es, inserted, k, j) {
      assert SkippedAfter(rows, cs, inserted, k, j);
      CandidateAt(es, currentYear, newGuid, j);
      SkippableEntry(rows + inserted[..k], es[j], currentYear, newGuid(j));
    }
  }

  /** The converse of `TraceOfEntries`. */
  lemma EntriesOfTrace(rows: seq<Movie>, es: seq<OmdbMovieResult>, currentYear: int, newGuid: nat -> NewGuid,
                       inserted: seq<Movie>, picked: seq<nat>, end: nat)
    requires IsImportTrace(rows, es, currentYear, newGuid, inserted, picked, end)
    ensures IsTrace(rows, Candidates(es, currentYear, newGuid), inserted, picked, end)
  {
    var cs := Candidates(es, currentYear, newGuid);
    forall k | 0 <= k < |picked| ensures DecideEntry(rows + inserted[..k], cs[picked[k]]) == Inserted(inserted[k]) {
      CandidateAt(es, currentYear, newGuid, picked[k]);
    }
    forall k: nat, j: nat | InGap(picked, end, k, j) ensures SkippedAfter(rows, cs, inserted, k, j) {
      assert EntrySkippedAfter(rows, es, inserted, k, j);
      CandidateAt(es, currentYear, newGuid, j);
      SkippableEntry(rows + inserted[..k], es[j], currentYear, newGuid(j));
    }
  }

  // ---- one whole call of the handler

  /** A completed import answers with the projections of exactly the movies it
      inserted, in order, drawn from a subsequence of the search entries; every
      other entry was skipped for an unparsable year or a (title, year) stored
      when the loop reached it. */
  lemma ImportSucceeds(rows: seq<Movie>, cmd: ImportMoviesFromOmdbCommand, search: seq<OmdbMovieResult>,
                       currentYear: int, newGuid: nat -> NewGuid)
    requires var e := Import(rows, cmd, search, currentYear, newGuid);
             e.outcome.Completed? && e.outcome.result.Success?
    ensures var e := Import(rows, cmd, search, currentYear, newGuid);
            && e.rows == rows + e.rows[|rows|..]
            && e.outcome.result.value == Projections(e.rows[|rows|..])
            && exists picked :: IsImportTrace(rows, search, currentYear, newGuid, e.rows[|rows|..], picked, |search|)
  {
    var cs := Candidates(search, currentYear, newGuid);
    var run := Run(rows, cs, |search|);
    RunIsTrace(rows, cs, |search|);
    var e := Import(rows, cmd, search, currentYear, newGuid);
    assert e.rows[|rows|..] == run.inserted;
    TraceOfEntries(rows, search, currentYear, newGuid, run.inserted, run.picked, |search|);
    assert IsImportTrace(rows, search, currentYear, newGuid, e.rows[|rows|..], run.picked, |search|);
  }

  /** The converse: a trace over the whole search is the import's answer, so the
      trace leaves no choice of which entries are inserted. */
  lemma ImportOfCompleteTrace(rows: seq<Movie>, cmd: ImportMoviesFromOmdbCommand, search: seq<OmdbMovieResult>,
                              currentYear: int, newGuid: nat -> NewGuid, inserted: seq<Movie>, picked: seq<nat>)
    requires Validate(cmd) == [] && search != []
    requires IsImportTrace(rows, search, currentYear, newGuid, inserted, picked, |search|)
    ensures Import(rows, cmd, search, currentYear, newGuid)
         == ImportEffect(Completed(Result.Success(Projections(inserted))), rows + inserted)
  {
    EntriesOfTrace(rows, search, currentYear, newGuid, inserted, picked, |search|);
    TraceIsRun(rows, Candidates(search, currentYear, newGuid), inserted, picked, |search|);
  }

  /** When `Movie.Create` throws, the movies inserted before it stay in the table:
      they are the trace up to the throwing entry, whose year parses, whose
      (title, year) is not stored, and for which the factory throws that error. */
  lemma ImportThrows(rows: seq<Movie>, cmd: ImportMoviesFromOmdbCommand, search: seq<OmdbMovieResult>,
                     currentYear: int, newGuid: nat -> NewGuid)
    requires Import(rows, cmd, search, currentYear, newGuid).outcome.Threw?
    ensures var e := Import(rows, cmd, search, currentYear, newGuid);
            && e.rows == rows + e.rows[|rows|..]
            && exists j: nat, picked: seq<nat> ::
                 && j < |search|
                 && IsImportTrace(rows, search, currentYear, newGuid, e.rows[|rows|..], picked, j)
                 && ParseYear(search[j].year).Some?
                 && !Exists(e.rows, search[j].title, ParseYear(search[j].year).value)
                 && Create(Some(search[j].title), ParseYear(search[j].year).value, Some(search[j].imdbId),
                           currentYear, newGuid(j)) == Rejected(e.outcome.error)
  {
    var cs := Candidates(search, currentYear, newGuid);
    var run := Run(rows, cs, |search|);
    RunIsTrace(rows, cs, |search|);
    var e := Import(rows, cmd, search, currentYear, newGuid);
    var j := run.failure.value.index;
    assert e.rows[|rows|..] == run.inserted;
    TraceOfEntries(rows, search, currentYear, newGuid, run.inserted, run.picked, j);
    CandidateAt(search, currentYear, newGuid, j);
    assert DecideEntry(e.rows, cs[j]) == Aborted(e.outcome.error);
  }

  /** The converse: a trace up to an entry whose year parses, whose (title, year)
      is not stored and whose factory call throws is the import's exception, with
      the trace's inserts kept. */
  lemma ImportOfInterruptedTrace(rows: seq<Movie>, cmd: ImportMoviesFromOmdbCommand, search: seq<OmdbMovieResult>,
                                 currentYear: int, newGuid: nat -> NewGuid, inserted: seq<Movie>, picked: seq<nat>,
                                 j: nat)
    requires Validate(cmd) == [] && j < |search|
    requires IsImportTrace(rows, search, currentYear, newGuid, inserted, picked, j)
    requires ParseYear(search[j].year).Some?
    requires !Exists(rows + inserted, search[j].title, ParseYear(search[j].year).value)
    requires Create(Some(search[j].title), ParseYear(search[j].year).value, Some(search[j].imdbId),
                    currentYear, newGuid(j)).Rejected?
    ensures Import(rows, cmd, search, currentYear, newGuid)
         == ImportEffect(Threw(Create(Some(search[j].title), ParseYear(search[j].year).value, Some(search[j].imdbId),
                                      currentYear, newGuid(j)).error), rows + inserted)
  {
    var cs := Candidates(search, currentYear, newGuid);
    EntriesOfTrace(rows, search, currentYear, newGuid, inserted, picked, j);
    TraceIsRun(rows, cs, inserted, picked, j);
    CandidateAt(search, currentYear, newGuid, j);
    RunStep(rows, cs, j, inserted, picked);
  }

  /** Validation failing short-circuits: the errors are grouped under "SearchTerm"
      only, the table is untouched, and neither the search result, the clock nor
      the Guids play any part, so the search is never needed. */
  lemma ValidationShortCircuits(rows: seq<Movie>, cmd: ImportMoviesFromOmdbCommand,
                                search1: seq<OmdbMovieResult>, currentYear1: int, newGuid1: nat -> NewGuid,
                                search2: seq<OmdbMovieResult>, currentYear2: int, newGuid2: nat -> NewGuid)
    requires Validate(cmd) != []
    ensures Import(rows, cmd, search1, currentYear1, newGuid1) == Import(rows, cmd, search2, currentYear2, newGuid2)
    ensures var e := Import(rows, cmd, search1, currentYear1, newGuid1);
            && e.rows == rows
            && e.outcome.Completed? && e.outcome.result.ValidationError?
            && e.outcome.result.errors.Keys == {"SearchTerm"}
  {
    var fs := Validate(cmd);
    var m := GroupByProperty(fs);
    assert fs[0].propertyName == "SearchTerm";
    assert Mentions(fs, "SearchTerm");
    assert m.Keys == {"SearchTerm"};
  }

  /** An empty search answers NotFound with a message naming the search term. */
  lemma EmptySearchNotFound(rows: seq<Movie>, cmd: ImportMoviesFromOmdbCommand, currentYear: int,
                            newGuid: nat -> NewGuid)
    requires Validate(cmd) == []
    ensures var e := Import(rows, cmd, [], currentYear, newGuid);
            && e.rows == rows
            && e.outcome.Completed? && e.outcome.result.NotFound?
            && Contains(e.outcome.result.error, "No movies found")
            && Contains(e.outcome.result.error, cmd.searchTerm)
  {
    NoMoviesMessageMentions(cmd.searchTerm);
  }

  /** A non-empty search whose every entry is skipped is a success with no movies,
      not NotFound, and it inserts nothing. */
  lemma AllSkippedIsEmptySuccess(rows: seq<Movie>, cmd: ImportMoviesFromOmdbCommand, search: seq<OmdbMovieResult>,
                                 currentYear: int, newGuid: nat -> NewGuid)
    requires Validate(cmd) == [] && search != []
    requires forall j :: 0 <= j < |search| ==> EntrySkipped(rows, search[j])
    ensures Import(rows, cmd, search, currentYear, newGuid) == ImportEffect(Completed(Result.Success([])), rows)
  {
    var cs := Candidates(search, currentYear, newGuid);
    forall j | 0 <= j < |cs| ensures Skippable(rows, cs[j]) {
      CandidateAt(search, currentYear, newGuid, j);
      SkippableEntry(rows, search[j], currentYear, newGuid(j));
    }
    RunAllSkipped(rows, cs, |search|);
    assert rows + [] == rows;
  }

  lemma InsertedIsWellFormed(rows: seq<Movie>, es: seq<OmdbMovieResult>, currentYear: int, newGuid: nat -> NewGuid,
                              j: nat)
    requires j < |es|
    ensures var d := DecideEntry(rows, Candidates(es, currentYear, newGuid)[j]);
            d.Inserted? ==> IsWellFormed(d.movie)
  {
    CandidateAt(es, currentYear, newGuid, j);
    DecideEntryFacts(rows, es[j], currentYear, newGuid(j));
  }

  /** Every row stays well formed: the import only adds movies the factory built. */
  lemma ImportPreservesWellFormed(rows: seq<Movie>, cmd: ImportMoviesFromOmdbCommand, search: seq<OmdbMovieResult>,
                                  currentYear: int, newGuid: nat -> NewGuid)
    requires forall i :: 0 <= i < |rows| ==> IsWellFormed(rows[i])
    ensures var e := Import(rows, cmd, search, currentYear, newGuid);
            forall i :: 0 <= i < |e.rows| ==> IsWellFormed(e.rows[i])
  {
    var e := Import(rows, cmd, search, currentYear, newGuid);
    if Validate(cmd) == [] && search != [] {
      var cs := Candidates(search, currentYear, newGuid);
      var run := Run(rows, cs, |search|);
      RunInserted(rows, cs, |search|);
      assert e.rows == rows + run.inserted;
      forall k | 0 <= k < |run.inserted| ensures IsWellFormed(run.inserted[k]) {
        InsertedIsWellFormed(rows + run.inserted[..k], search, currentYear, newGuid, run.picked[k]);
      }
    }
  }

  /** Importing the same search again after a completed import inserts nothing,
      provided the OMDb titles carry no surrounding white space; otherwise the
      untrimmed existence check lets the same films in twice. */
  lemma ReimportInsertsNothing(rows: seq<Movie>, cmd: ImportMoviesFromOmdbCommand, search: seq<OmdbMovieResult>,
                               currentYear: int, newGuid: nat -> NewGuid, newGuid2: nat -> NewGuid)
    requires var e := Import(rows, cmd, search, currentYear, newGuid);
             e.outcome.Completed? && e.outcome.result.Success?
    requires forall j :: 0 <= j < |search| ==> IsTrimmed(search[j].title)
    ensures var e := Import(rows, cmd, search, currentYear, newGuid);
            Import(e.rows, cmd, search, currentYear, newGuid2) == ImportEffect(Completed(Result.Success([])), e.rows)
  {
    var e := Import(rows, cmd, search, currentYear, newGuid);
    var cs := Candidates(search, currentYear, newGuid);
    var run := Run(rows, cs, |search|);
    assert e.rows == rows + run.inserted && run.failure.None?;
    RunShape(rows, cs, |search|);
    RunInserted(rows, cs, |search|);
    RunSkippedAtEnd(rows, cs, |search|);
    forall j | 0 <= j < |search| ensures EntrySkipped(e.rows, search[j]) {
      CandidateAt(search, currentYear, newGuid, j);
      if j in run.picked {
        var k :| 0 <= k < |run.picked| && run.picked[k] == j;
        var m := run.inserted[k];
        assert DecideEntry(rows + run.inserted[..k], cs[j]) == Inserted(m);
        TrimOfTrimmed(search[j].title);
        assert m.title == search[j].title && ParseYear(search[j].year) == Some(m.year);
        assert e.rows[|rows| + k] == m;
      } else {
        SkippableEntry(e.rows, search[j], currentYear, newGuid(j));
      }
    }
    AllSkippedIsEmptySuccess(e.rows, cmd, search, currentYear, newGuid2);
  }
}
