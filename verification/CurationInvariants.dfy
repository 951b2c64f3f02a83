/**
  What every curation transaction keeps: the shape of a run's page manifest, and how the windows of
  advanced runs tile the time line below the cursor.
 */
module CurationInvariants {
  import opened Base
  import opened CurationStore

  // ---------------------------------------------------------------------------------------------
  // The manifest of one run
  // ---------------------------------------------------------------------------------------------

  /** How many of the first n pages of a run have their outcomes. */
  ghost function DonePages(s: Store, runId: RunId, n: nat): (k: nat)
    ensures k <= n
  {
    if n == 0 then 0
    else DonePages(s, runId, n - 1) + (if (runId, n - 1) in s.pages && s.pages[(runId, n - 1)].complete then 1 else 0)
  }

  ghost predicate RowOk(s: Store, runId: RunId, i: nat)
    requires (runId, i) in s.pages
  {
    var row := s.pages[(runId, i)];
    && row.page.index == i
    && Continues(s, runId, row.page)
    && PageWithinLimits(row.page)
    && (row.complete <==> row.outcomes.Some?)
    && (row.outcomes.Some? ==> OutcomesMatch(row.page.items, row.outcomes.value))
  }

  ghost predicate ManifestOk(s: Store, runId: RunId)
    requires runId in s.runs
  {
    var run := s.runs[runId];
    && (forall i: nat :: (runId, i) in s.pages <==> i < run.pageCount)
    && (forall i: nat | i < run.pageCount :: RowOk(s, runId, i))
    && (run.snapshotComplete <==> run.pageCount > 0 && s.pages[(runId, run.pageCount - 1)].page.snapshotComplete)
    && run.completedPageCount == DonePages(s, runId, run.pageCount)
    && (run.state == Complete ==> ReadyToComplete(run))
    && (run.state == Complete <==> run.advanced.Some?)
  }

  /** Every run's manifest is in order and no page belongs to an unknown run. */
  ghost predicate ManifestsOk(s: Store) {
    && (forall r :: r in s.runs ==> ManifestOk(s, r))
    && (forall k :: k in s.pages ==> k.0 in s.runs)
  }

  /** The four transactions, as one relation between stores. */
  ghost predicate StoreStep(s: Store, t: Store) {
    || (exists r, project, window, now :: BeginStep(s, t, r, project, window, now))
    || (exists r, page :: SaveStep(s, t, r, page))
    || (exists r, i, outcomes :: RecordStep(s, t, r, i, outcomes))
    || (exists r, now :: CompleteStep(s, t, r, now))
  }

  ghost predicate BeginStep(s: Store, t: Store, r: RunId, project: ProjectId, window: Window, now: Time) {
    r !in s.runs && (window.mode == Schedule ==> window.from.None?) && Begun(s, r, project, window, now) == Ok(t)
  }

  ghost predicate SaveStep(s: Store, t: Store, r: RunId, page: Page) {
    PageSaved(s, r, page) == Ok(t)
  }

  ghost predicate RecordStep(s: Store, t: Store, r: RunId, i: nat, outcomes: seq<Outcome>) {
    OutcomesRecorded(s, r, i, outcomes) == Ok(t)
  }

  ghost predicate CompleteStep(s: Store, t: Store, r: RunId, now: Time) {
    Completed(s, r, now).Ok? && Completed(s, r, now).value.0 == t
  }

  lemma {:induction false} DonePagesSame(s: Store, t: Store, r: RunId, n: nat)
    requires forall i: nat | i < n :: ((r, i) in s.pages <==> (r, i) in t.pages)
                                      && ((r, i) in s.pages ==> s.pages[(r, i)].complete == t.pages[(r, i)].complete)
    ensures DonePages(s, r, n) == DonePages(t, r, n)
  {
    if n > 0 { DonePagesSame(s, t, r, n - 1); }
  }

  lemma {:induction false} DonePagesOneMore(s: Store, t: Store, r: RunId, k: nat, n: nat)
    requires k < n && (r, k) in s.pages && (r, k) in t.pages && !s.pages[(r, k)].complete
    requires t.pages == s.pages[(r, k) := s.pages[(r, k)].(complete := true, outcomes := t.pages[(r, k)].outcomes)]
    ensures DonePages(t, r, n) == DonePages(s, r, n) + 1
  {
    if k == n - 1 { DonePagesSame(s, t, r, n - 1); } else { DonePagesOneMore(s, t, r, k, n - 1); }
  }

  /** A full count means that no page is missing its outcomes. */
  lemma {:induction false} AllPagesDone(s: Store, r: RunId, n: nat)
    requires DonePages(s, r, n) == n
    ensures forall i: nat | i < n :: (r, i) in s.pages && s.pages[(r, i)].complete
  {
    if n > 0 { AllPagesDone(s, r, n - 1); }
  }

  /** A run that the step does not name keeps its pages, and with them its manifest. */
  lemma ManifestFramed(s: Store, t: Store, r: RunId)
    requires r in s.runs && r in t.runs && s.runs[r] == t.runs[r] && ManifestOk(s, r)
    requires forall i: nat :: ((r, i) in s.pages <==> (r, i) in t.pages)
               && ((r, i) in s.pages ==> s.pages[(r, i)] == t.pages[(r, i)])
    ensures ManifestOk(t, r)
  {
    DonePagesSame(s, t, r, s.runs[r].pageCount);
    forall i: nat | i < t.runs[r].pageCount ensures RowOk(t, r, i) { assert RowOk(s, r, i); }
  }

  lemma SaveKeepsManifest(s: Store, t: Store, r: RunId, page: Page)
    requires ManifestsOk(s) && SaveStep(s, t, r, page) && s != t
    ensures ManifestOk(t, r)
  {
    var n := s.runs[r].pageCount;
    assert ManifestOk(s, r);
    DonePagesSame(s, t, r, n);
    forall i: nat | i < n + 1 ensures RowOk(t, r, i) {
      if i < n { assert RowOk(s, r, i); }
    }
  }

  lemma RecordKeepsManifest(s: Store, t: Store, r: RunId, k: nat, outcomes: seq<Outcome>)
    requires ManifestsOk(s) && RecordStep(s, t, r, k, outcomes) && s != t
    ensures ManifestOk(t, r)
  {
    var n := s.runs[r].pageCount;
    assert ManifestOk(s, r) && k < n;
    assert RowOk(s, r, k);
    DonePagesOneMore(s, t, r, k, n);
    forall i: nat | i < n ensures RowOk(t, r, i) { assert RowOk(s, r, i); }
    assert ManifestOk(t, r);
  }

  lemma CompleteKeepsManifest(s: Store, t: Store, r: RunId, now: Time)
    requires ManifestsOk(s) && CompleteStep(s, t, r, now) && s != t
    ensures ManifestOk(t, r)
  {
    assert ManifestOk(s, r);
    DonePagesSame(s, t, r, s.runs[r].pageCount);
    forall i: nat | i < t.runs[r].pageCount ensures RowOk(t, r, i) { assert RowOk(s, r, i); }
  }

  /** The step changes no run but the named one, and none of the pages of other runs. */
  ghost predicate OnlyTouches(s: Store, t: Store, named: RunId) {
    && named in t.runs && t.runs.Keys == s.runs.Keys + {named}
    && (forall q :: q in s.runs && q != named ==> t.runs[q] == s.runs[q])
    && (forall k :: k in s.pages ==> k in t.pages) && (forall k :: k in t.pages ==> k in s.pages || k.0 == named)
    && (forall k :: k in s.pages && k.0 != named ==> t.pages[k] == s.pages[k])
  }

  /** Every step that changes anything is about one run. */
  lemma StepNamesOneRun(s: Store, t: Store) returns (named: RunId)
    requires StoreStep(s, t) && s != t
    ensures OnlyTouches(s, t, named)
    ensures (exists page :: SaveStep(s, t, named, page)) || (exists k, outcomes :: RecordStep(s, t, named, k, outcomes))
            || (exists now :: CompleteStep(s, t, named, now))
               || (exists project, window, now :: BeginStep(s, t, named, project, window, now))
  {
    if r, page :| SaveStep(s, t, r, page) {
      named := r;
    } else if r, k, outcomes :| RecordStep(s, t, r, k, outcomes) {
      named := r;
    } else if r, now :| CompleteStep(s, t, r, now) {
      named := r;
    } else {
      var r, project, window, now :| BeginStep(s, t, r, project, window, now);
      named := r;
    }
  }

  lemma NamedKeepsManifest(s: Store, t: Store, named: RunId)
    requires ManifestsOk(s) && s != t
    requires (exists page :: SaveStep(s, t, named, page))
               || (exists k, outcomes :: RecordStep(s, t, named, k, outcomes))
             || (exists now :: CompleteStep(s, t, named, now))
                || (exists project, window, now :: BeginStep(s, t, named, project, window, now))
    ensures ManifestOk(t, named)
  {
    hide ManifestsOk, ManifestOk, SaveStep, RecordStep, CompleteStep, BeginStep;
    if page :| SaveStep(s, t, named, page) {
      SaveKeepsManifest(s, t, named, page);
    } else if k, outcomes :| RecordStep(s, t, named, k, outcomes) {
      RecordKeepsManifest(s, t, named, k, outcomes);
    } else if now :| CompleteStep(s, t, named, now) {
      CompleteKeepsManifest(s, t, named, now);
    } else {
      var project, window, now :| BeginStep(s, t, named, project, window, now);
      BegunManifest(s, t, named, project, window, now);
    }
  }

  lemma BegunManifest(s: Store, t: Store, r: RunId, project: ProjectId, window: Window, now: Time)
    requires ManifestsOk(s) && BeginStep(s, t, r, project, window, now)
    ensures ManifestOk(t, r)
  {
    hide ManifestOk;
    assert forall i: nat :: (r, i) !in s.pages;
    NoPagesIsOk(t, r);
  }

  lemma NoPagesIsOk(t: Store, r: RunId)
    requires r in t.runs && t.runs[r].pageCount == 0 && t.runs[r].completedPageCount == 0 && !t.runs[r].snapshotComplete
    requires t.runs[r].state == Running && t.runs[r].advanced.None? && forall i: nat :: (r, i) !in t.pages
    ensures ManifestOk(t, r)
  {
  }

  /** Every transaction keeps every run's manifest. */
  lemma StepKeepsManifests(s: Store, t: Store)
    requires ManifestsOk(s) && StoreStep(s, t)
    ensures ManifestsOk(t)
  {
    hide StoreStep, ManifestOk;
    if s != t {
      var named := StepNamesOneRun(s, t);
      NamedKeepsManifest(s, t, named);
      forall q | q in t.runs && q != named ensures ManifestOk(t, q) { ManifestFramed(s, t, q); }
    }
  }

  /** No step is about a complete run: it either names another or changes nothing. */
  lemma CompleteRunIsNotNamed(s: Store, t: Store, named: RunId)
    requires OnlyTouches(s, t, named) && s != t && named in s.runs && s.runs[named].state == Complete
    ensures !(exists page :: SaveStep(s, t, named, page))
    ensures !(exists k, outcomes :: RecordStep(s, t, named, k, outcomes))
            && !(exists now :: CompleteStep(s, t, named, now))
  {
  }

  /**
    A complete run is closed: nothing recorded for it can change, whatever happens next, and
    completing it again changes nothing at all.
   */
  lemma CompleteRunIsFrozen(s: Store, t: Store, r: RunId)
    requires ManifestsOk(s) && StoreStep(s, t) && r in s.runs && s.runs[r].state == Complete
    ensures r in t.runs && t.runs[r] == s.runs[r]
    ensures forall i: nat :: ((r, i) in s.pages <==> (r, i) in t.pages)
              && ((r, i) in s.pages ==> t.pages[(r, i)] == s.pages[(r, i)])
    ensures forall i: nat | i < s.runs[r].pageCount :: (r, i) in s.pages && s.pages[(r, i)].outcomes.Some?
    ensures forall now :: CompleteStep(s, t, r, now) ==> t == s
  {
    hide StoreStep, PageSaved, OutcomesRecorded;
    assert ManifestOk(s, r);
    AllPagesDone(s, r, s.runs[r].pageCount);
    forall i: nat | i < s.runs[r].pageCount ensures s.pages[(r, i)].outcomes.Some? { assert RowOk(s, r, i); }
    if s != t {
      var named := StepNamesOneRun(s, t);
      if named == r { CompleteRunIsNotNamed(s, t, r); }
    }
  }

  /** A saved page is never changed, only given its outcomes, and never loses them. */
  lemma PagesAreKept(s: Store, t: Store, r: RunId, i: nat)
    requires ManifestsOk(s) && StoreStep(s, t) && (r, i) in s.pages
    ensures (r, i) in t.pages && t.pages[(r, i)].page == s.pages[(r, i)].page
    ensures s.pages[(r, i)].outcomes.Some? ==> t.pages[(r, i)] == s.pages[(r, i)]
  {
    assert ManifestOk(s, r) && RowOk(s, r, i);
  }

  // ---------------------------------------------------------------------------------------------
  // How advanced windows tile time
  // ---------------------------------------------------------------------------------------------

  /** A run of the project that moved the cursor. */
  ghost predicate Advanced(s: Store, project: ProjectId, r: RunId) {
    r in s.runs && s.runs[r].project == project && s.runs[r].advanced == Some(true)
  }

  ghost predicate Before(a: Window, b: Window) {
    b.from.Some? && a.to <= b.from.value
  }

  ghost predicate RunWindowOk(s: Store, r: RunId)
    requires r in s.runs
  {
    var run := s.runs[r];
    && run.window.NonEmpty()
    && !run.window.dryRun
    && (run.window.mode == Schedule ==> run.window.from == run.cursorBefore)
    && (run.cursorBefore.Some?
        ==> Cursor(s, run.project).Some? && run.cursorBefore.value <= Cursor(s, run.project).value)
    && (run.advanced == Some(true) ==> run.window.mode == Schedule && Cursor(s, run.project).Some?
                                       && run.window.to <= Cursor(s, run.project).value)
  }

  ghost predicate Covered(s: Store, project: ProjectId, t: Time) {
    exists r :: Advanced(s, project, r) && s.runs[r].window.Contains(t)
  }

  ghost predicate TilingOk(s: Store) {
    && (forall r :: r in s.runs ==> RunWindowOk(s, r))
    && (forall p, q, r :: q != r && Advanced(s, p, q) && Advanced(s, p, r) ==>
          Before(s.runs[q].window, s.runs[r].window) || Before(s.runs[r].window, s.runs[q].window))
    && (forall p, t :: p in s.cursors && t < s.cursors[p] ==> Covered(s, p, t))
  }

  /** Completing a run either leaves the cursor alone or extends the tiling by the run's window. */
  lemma AdvanceKeepsTiling(s: Store, t: Store, r: RunId, now: Time)
    requires TilingOk(s) && CompleteStep(s, t, r, now) && t.cursors != s.cursors
    ensures TilingOk(t)
  {
    var run := s.runs[r];
    var p := run.project;
    assert RunWindowOk(s, r);
    assert t.cursors == s.cursors[p := run.window.to];
    assert forall q, x :: q != r ==> (Advanced(s, x, q) <==> Advanced(t, x, q));
    forall q | q in t.runs ensures RunWindowOk(t, q) { assert RunWindowOk(s, q); }
    forall x, time | x in t.cursors && time < t.cursors[x] ensures Covered(t, x, time) {
      if x in s.cursors && time < s.cursors[x] {
        assert Covered(s, x, time);
        var q :| Advanced(s, x, q) && s.runs[q].window.Contains(time);
        assert Advanced(t, x, q) && t.runs[q].window.Contains(time);
      } else {
        assert Advanced(t, p, r) && t.runs[r].window.Contains(time);
      }
    }
    forall x, a, b | a != b && Advanced(t, x, a) && Advanced(t, x, b)
      ensures Before(t.runs[a].window, t.runs[b].window) || Before(t.runs[b].window, t.runs[a].window)
    {
      if a != r && b != r { assert Advanced(s, x, a) && Advanced(s, x, b); }
      else {
        var other := if a == r then b else a;
        assert Advanced(s, x, other) && RunWindowOk(s, other);
        assert Before(s.runs[other].window, run.window);
      }
    }
  }

  /** The fields of a run that the tiling depends on. */
  ghost predicate SameTile(a: Run, b: Run) {
    a.window == b.window && a.project == b.project && a.cursorBefore == b.cursorBefore
    && (a.advanced == Some(true) <==> b.advanced == Some(true))
  }

  /** Steps that move no cursor and advance no run keep the tiling. */
  lemma QuietStepKeepsTiling(s: Store, t: Store)
    requires TilingOk(s) && t.cursors == s.cursors
    requires forall r :: r in s.runs ==> r in t.runs && SameTile(s.runs[r], t.runs[r])
    requires forall r :: r in t.runs && r !in s.runs ==> RunWindowOk(t, r) && t.runs[r].advanced.None?
    ensures TilingOk(t)
  {
    forall p, r ensures Advanced(s, p, r) <==> Advanced(t, p, r) {}
    forall r | r in t.runs ensures RunWindowOk(t, r) { if r in s.runs { assert RunWindowOk(s, r); } }
    forall p, time | p in t.cursors && time < t.cursors[p] ensures Covered(t, p, time) {
      assert Covered(s, p, time);
      var q :| Advanced(s, p, q) && s.runs[q].window.Contains(time);
      assert Advanced(t, p, q) && t.runs[q].window.Contains(time);
    }
  }

  lemma StepKeepsTiling(s: Store, t: Store)
    requires ManifestsOk(s) && TilingOk(s) && StoreStep(s, t)
    ensures TilingOk(t)
  {
    if r, now :| CompleteStep(s, t, r, now) {
      CompleteKeepsTiling(s, t, r, now);
    } else if r, page :| SaveStep(s, t, r, page) {
      SaveKeepsTiling(s, t, r, page);
    } else if r, k, outcomes :| RecordStep(s, t, r, k, outcomes) {
      RecordKeepsTiling(s, t, r, k, outcomes);
    } else {
      var r, project, window, now :| BeginStep(s, t, r, project, window, now);
      BeginKeepsTiling(s, t, r, project, window, now);
    }
  }

  lemma BeginKeepsTiling(s: Store, t: Store, r: RunId, project: ProjectId, window: Window, now: Time)
    requires TilingOk(s) && BeginStep(s, t, r, project, window, now)
    ensures TilingOk(t)
  {
    QuietStepKeepsTiling(s, t);
  }

  lemma SaveKeepsTiling(s: Store, t: Store, r: RunId, page: Page)
    requires TilingOk(s) && SaveStep(s, t, r, page)
    ensures TilingOk(t)
  {
    QuietStepKeepsTiling(s, t);
  }

  lemma RecordKeepsTiling(s: Store, t: Store, r: RunId, k: nat, outcomes: seq<Outcome>)
    requires TilingOk(s) && RecordStep(s, t, r, k, outcomes)
    ensures TilingOk(t)
  {
    QuietStepKeepsTiling(s, t);
  }

  lemma CompleteKeepsTiling(s: Store, t: Store, r: RunId, now: Time)
    requires ManifestsOk(s) && TilingOk(s) && CompleteStep(s, t, r, now)
    ensures TilingOk(t)
  {
    assert ManifestOk(s, r) && RunWindowOk(s, r);
    if t.cursors != s.cursors { AdvanceKeepsTiling(s, t, r, now); } else { QuietStepKeepsTiling(s, t); }
  }

  /** The cursor of a project only ever moves forward, and a manual run never moves it. */
  lemma CursorOnlyAdvances(s: Store, t: Store, project: ProjectId)
    requires ManifestsOk(s) && TilingOk(s) && StoreStep(s, t) && Cursor(s, project) != Cursor(t, project)
    ensures Cursor(t, project).Some?
    ensures (Cursor(s, project).Some? ==> Cursor(s, project).value < Cursor(t, project).value)
    ensures exists r, now :: CompleteStep(s, t, r, now) && s.runs[r].project == project
              && s.runs[r].window.mode == Schedule
                             && s.runs[r].cursorBefore == Cursor(s, project)
                             && s.runs[r].window.to == t.cursors[project]
  {
    var r, now :| CompleteStep(s, t, r, now);
    assert RunWindowOk(s, r);
  }

  /** Two runs that started from the same cursor never both advance. */
  lemma SameStartNeverBothAdvance(s: Store, p: ProjectId, q: RunId, r: RunId)
    requires TilingOk(s) && Advanced(s, p, q) && Advanced(s, p, r) && s.runs[q].cursorBefore == s.runs[r].cursorBefore
    ensures q == r
  {
    assert RunWindowOk(s, q) && RunWindowOk(s, r);
  }

  /** Below the cursor each instant belongs to exactly one advanced window; at or above it, to none. */
  lemma ExactlyOneWindow(s: Store, p: ProjectId, t: Time)
    requires TilingOk(s)
    ensures Cursor(s, p).Some? && t < Cursor(s, p).value <==> Covered(s, p, t)
    ensures forall q, r ::
              Advanced(s, p, q) && Advanced(s, p, r) && s.runs[q].window.Contains(t) && s.runs[r].window.Contains(t) ==>
                q == r
  {
    if Covered(s, p, t) {
      var r :| Advanced(s, p, r) && s.runs[r].window.Contains(t);
      assert RunWindowOk(s, r);
    }
  }
}
