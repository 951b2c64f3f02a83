/**
  The persistent curation run protocol: runs, their manifest pages and the per-project time cursor.
  Every operation is one SQL transaction, so it is specified by a function from store to store; the
  class `LocalCurationStore` performs it on its three tables and is proved to do exactly that.
 */
module CurationStore {
  import opened Base

  /** A canonical UTC timestamp; the source compares the strings, whose order is the time order. */
  type Time = int
  type ProjectId = string
  type MemoryId = int
  type RunId = int

  datatype Mode = Schedule | Manual

  datatype Window = Window(from: Option<Time>, to: Time, mode: Mode, dryRun: bool) {
    /** Half-open membership. */
    predicate Contains(t: Time) {
      (from.None? || from.value <= t) && t < to
    }

    predicate NonEmpty() {
      from.None? || from.value < to
    }
  }

  /** Keyset position in the `(created_at, id)` order. */
  datatype Key = Key(createdAt: Time, id: MemoryId)

  predicate Less(a: Key, b: Key) {
    a.createdAt < b.createdAt || (a.createdAt == b.createdAt && a.id < b.id)
  }

  /** What a page token resumes: a stage and a position in it. */
  datatype StageCursor =
    | DeferredAfter(last: Option<MemoryId>)
    | WindowAfter(key: Option<Key>)

  datatype Item = Item(memoryId: MemoryId, contentHash: string)

  datatype Page = Page(index: nat, after: Option<StageCursor>, nextAfter: Option<StageCursor>,
                       snapshotComplete: bool, items: seq<Item>)

  datatype Verdict = Promoted | NoOp | Skipped

  datatype Outcome = Outcome(memoryId: MemoryId, verdict: Verdict, reason: string)

  datatype PageRow = PageRow(page: Page, outcomes: Option<seq<Outcome>>, complete: bool)

  datatype RunState = Running | Complete

  datatype Run = Run(project: ProjectId, window: Window, cursorBefore: Option<Time>, state: RunState,
                     pageCount: nat, completedPageCount: nat, snapshotComplete: bool,
                     advanced: Option<bool>, createdAt: Time, completedAt: Option<Time>)

  datatype Store = Store(cursors: map<ProjectId, Time>, runs: map<RunId, Run>, pages: map<(RunId, nat), PageRow>)

  datatype StoreError = InvalidRun | EmptyWindow | RunNotOpen | RunMissing | PageChanged | PageOutOfOrder
    | PageCursorMismatch | PageLimits | PageMissing | OutcomesMismatch | OutcomesChanged

  const SHARED_PROJECT_ID: ProjectId := "__shared__"
  const PAGE_SIZE: nat := 25

  function Cursor(s: Store, project: ProjectId): Option<Time> {
    if project in s.cursors then Some(s.cursors[project]) else None
  }

  predicate HashOk(hash: string) {
    |hash| == 64 && forall c :: c in hash ==> '0' <= c <= '9' || 'a' <= c <= 'f'
  }

  function ItemIds(items: seq<Item>): (ids: seq<MemoryId>)
    ensures |ids| == |items| && forall i :: 0 <= i < |ids| ==> ids[i] == items[i].memoryId
  {
    seq(|items|, i requires 0 <= i < |items| => items[i].memoryId)
  }

  function OutcomeIds(outcomes: seq<Outcome>): (ids: seq<MemoryId>)
    ensures |ids| == |outcomes| && forall i :: 0 <= i < |ids| ==> ids[i] == outcomes[i].memoryId
  {
    seq(|outcomes|, i requires 0 <= i < |outcomes| => outcomes[i].memoryId)
  }

  /** The source compares the two sorted id lists and then demands that the ids be distinct. */
  ghost predicate OutcomesMatch(items: seq<Item>, outcomes: seq<Outcome>) {
    multiset(ItemIds(items)) == multiset(OutcomeIds(outcomes)) && Distinct(OutcomeIds(outcomes))
  }

  // ---------------------------------------------------------------------------------------------
  // Transactions
  // ---------------------------------------------------------------------------------------------

  /** The cursor fills in a missing lower bound. */
  function EffectiveWindow(s: Store, project: ProjectId, window: Window): Window {
    if window.from.None? then window.(from := Cursor(s, project)) else window
  }

  function Begun(s: Store, runId: RunId, project: ProjectId, window: Window, now: Time): Result<Store, StoreError> {
    if project == SHARED_PROJECT_ID || window.dryRun then Err(InvalidRun)
    else
      var effective := EffectiveWindow(s, project, window);
      if !effective.NonEmpty() then Err(EmptyWindow)
      else Ok(s.(runs :=
                 s.runs[runId := Run(project, effective, Cursor(s, project), Running, 0, 0, false, None, now, None)]))
  }

  predicate PageWithinLimits(page: Page) {
    |page.items| <= PAGE_SIZE && forall i :: 0 <= i < |page.items| ==> HashOk(page.items[i].contentHash)
  }

  /** The page continues the chain: page 0 starts it, page n resumes where page n-1 stopped. */
  predicate Continues(s: Store, runId: RunId, page: Page) {
    if page.index == 0 then page.after.None?
    else
      (runId, page.index - 1) in s.pages
      && var previous := s.pages[(runId, page.index - 1)].page;
         !previous.snapshotComplete && previous.nextAfter == page.after
  }

  function PageInserted(s: Store, runId: RunId, page: Page): Store
    requires runId in s.runs
  {
    s.(pages := s.pages[(runId, page.index) := PageRow(page, None, false)],
       runs := s.runs[runId := s.runs[runId].(pageCount := page.index + 1, snapshotComplete := page.snapshotComplete)])
  }

  function PageSaved(s: Store, runId: RunId, page: Page): Result<Store, StoreError> {
    if runId !in s.runs || s.runs[runId].state != Running || s.runs[runId].snapshotComplete then Err(RunNotOpen)
    else if (runId, page.index) in s.pages then
      if s.pages[(runId, page.index)].page != page then Err(PageChanged) else Ok(s)
    else if page.index != s.runs[runId].pageCount then Err(PageOutOfOrder)
    else if !Continues(s, runId, page) then Err(PageCursorMismatch)
    else if !PageWithinLimits(page) then Err(PageLimits)
    else Ok(PageInserted(s, runId, page))
  }

  function PageCompleted(s: Store, runId: RunId, index: nat, outcomes: seq<Outcome>): Store
    requires runId in s.runs && (runId, index) in s.pages
  {
    s.(pages := s.pages[(runId, index) := s.pages[(runId, index)].(outcomes := Some(outcomes), complete := true)],
       runs := s.runs[runId := s.runs[runId].(completedPageCount := s.runs[runId].completedPageCount + 1)])
  }

  ghost function OutcomesRecorded(s: Store, runId: RunId, index: nat,
                                  outcomes: seq<Outcome>): Result<Store, StoreError> {
    if runId !in s.runs || s.runs[runId].state != Running then Err(RunNotOpen)
    else if (runId, index) !in s.pages then Err(PageMissing)
    else if !OutcomesMatch(s.pages[(runId, index)].page.items, outcomes) then Err(OutcomesMismatch)
    else if s.pages[(runId, index)].complete then
      if s.pages[(runId, index)].outcomes != Some(outcomes) then Err(OutcomesChanged) else Ok(s)
    else Ok(PageCompleted(s, runId, index, outcomes))
  }

  /** What `complete` reports to its caller. */
  datatype Completion = Completion(cursor: Option<Time>, advanced: bool)

  predicate ReadyToComplete(run: Run) {
    run.snapshotComplete && run.pageCount != 0 && run.completedPageCount == run.pageCount
  }

  predicate MayAdvance(s: Store, run: Run) {
    run.window.mode == Schedule && !run.window.dryRun && Cursor(s, run.project) == run.cursorBefore
  }

  function Completed(s: Store, runId: RunId, now: Time): Result<(Store, Completion), StoreError> {
    if runId !in s.runs then Err(RunMissing)
    else
      var run := s.runs[runId];
      var cursor := Cursor(s, run.project);
      if run.state == Complete then Ok((s, Completion(cursor, run.advanced == Some(true))))
      else if !ReadyToComplete(run) then Ok((s, Completion(cursor, false)))
      else
        var advance := MayAdvance(s, run);
        var finished := run.(state := Complete, advanced := Some(advance), completedAt := Some(now));
        Ok((Store(if advance then s.cursors[run.project := run.window.to] else s.cursors, s.runs[runId := finished],
                  s.pages),
            Completion(if advance then Some(run.window.to) else cursor, advance)))
  }

  // ---------------------------------------------------------------------------------------------
  // The SQLite store
  // ---------------------------------------------------------------------------------------------

  class LocalCurationStore {
    var cursors: map<ProjectId, Time>
    var runs: map<RunId, Run>
    var pages: map<(RunId, nat), PageRow>

    constructor ()
      ensures View() == Store(map[], map[], map[])
    {
      cursors, runs, pages := map[], map[], map[];
    }

    ghost function View(): Store
      reads this
    {
      Store(cursors, runs, pages)
    }

    /** `runId` is the fresh ULID the source draws; `now` is the caller's clock reading. */
    method Begin(runId: RunId, project: ProjectId, window: Window, now: Time) returns (r: Result<Run, StoreError>)
      requires runId !in runs
      modifies this
      ensures Begun(old(View()), runId, project, window, now) == if r.Ok? then Ok(View()) else Err(r.error)
      ensures r.Err? ==> View() == old(View())
      ensures r.Ok? ==> runId in runs && r.value == runs[runId]
    {
      if project == SHARED_PROJECT_ID || window.dryRun { return Err(InvalidRun); }
      var current := if project in cursors then Some(cursors[project]) else None;
      var effective := if window.from.None? && current.Some? then window.(from := current) else window;
      if effective.from.Some? && effective.from.value >= effective.to { return Err(EmptyWindow); }
      var run := Run(project, effective, current, Running, 0, 0, false, None, now, None);
      runs := runs[runId := run];
      r := Ok(run);
    }

    method SavePage(runId: RunId, page: Page) returns (r: Result<(), StoreError>)
      modifies this
      ensures PageSaved(old(View()), runId, page) == if r.Ok? then Ok(View()) else Err(r.error)
      ensures r.Err? ==> View() == old(View())
    {
      if runId !in runs || runs[runId].state != Running || runs[runId].snapshotComplete { return Err(RunNotOpen); }
      if (runId, page.index) in pages {
        var existing := pages[(runId, page.index)].page;
        if existing != page { return Err(PageChanged); }
        return Ok(());
      }
      if page.index != runs[runId].pageCount { return Err(PageOutOfOrder); }
      if page.index > 0 {
        if (runId, page.index - 1) !in pages { return Err(PageCursorMismatch); }
        var previous := pages[(runId, page.index - 1)].page;
        if previous.snapshotComplete || previous.nextAfter != page.after { return Err(PageCursorMismatch); }
      } else if page.after.Some? {
        return Err(PageCursorMismatch);
      }
      if !PageWithinLimits(page) { return Err(PageLimits); }
      pages := pages[(runId, page.index) := PageRow(page, None, false)];
      runs := runs[runId := runs[runId].(pageCount := page.index + 1, snapshotComplete := page.snapshotComplete)];
      r := Ok(());
    }

    method RecordOutcomes(runId: RunId, index: nat, outcomes: seq<Outcome>) returns (r: Result<(), StoreError>)
      modifies this
      ensures OutcomesRecorded(old(View()), runId, index, outcomes) == if r.Ok? then Ok(View()) else Err(r.error)
      ensures r.Err? ==> View() == old(View())
    {
      if runId !in runs || runs[runId].state != Running { return Err(RunNotOpen); }
      if (runId, index) !in pages { return Err(PageMissing); }
      var row := pages[(runId, index)];
      var actual := OutcomeIds(outcomes);
      if multiset(ItemIds(row.page.items)) != multiset(actual) { return Err(OutcomesMismatch); }
      var distinct := AllDistinct(actual);
      if !distinct { return Err(OutcomesMismatch); }
      if row.complete {
        if row.outcomes != Some(outcomes) { return Err(OutcomesChanged); }
        return Ok(());
      }
      pages := pages[(runId, index) := row.(outcomes := Some(outcomes), complete := true)];
      runs := runs[runId := runs[runId].(completedPageCount := runs[runId].completedPageCount + 1)];
      r := Ok(());
    }

    method CompleteRun(runId: RunId, now: Time) returns (r: Result<Completion, StoreError>)
      modifies this
      ensures Completed(old(View()), runId, now) == if r.Ok? then Ok((View(), r.value)) else Err(r.error)
      ensures r.Err? ==> View() == old(View())
    {
      if runId !in runs { return Err(RunMissing); }
      var run := runs[runId];
      var cursor := if run.project in cursors then Some(cursors[run.project]) else None;
      if run.state == Complete { return Ok(Completion(cursor, run.advanced == Some(true))); }
      if !run.snapshotComplete || run.pageCount == 0 || run.completedPageCount != run.pageCount {
        return Ok(Completion(cursor, false));
      }
      var advanced := false;
      if run.window.mode == Schedule && !run.window.dryRun && cursor == run.cursorBefore {
        cursors := cursors[run.project := run.window.to];
        cursor := Some(run.window.to);
        advanced := true;
      }
      runs := runs[runId := run.(state := Complete, advanced := Some(advanced), completedAt := Some(now))];
      r := Ok(Completion(cursor, advanced));
    }
  }

  /** `new Set(ids).size === ids.length`: grow the set and compare sizes. */
  method AllDistinct(ids: seq<MemoryId>) returns (distinct: bool)
    ensures distinct <==> Distinct(ids)
  {
    var seen: set<MemoryId> := {};
    for i := 0 to |ids|
      invariant seen == Elements(ids[..i])
      invariant |seen| <= i
      invariant |seen| == i <==> Distinct(ids[..i])
    {
      assert ids[..i + 1] == ids[..i] + [ids[i]];
      if ids[i] in seen {
        assert !Distinct(ids[..i + 1]) by {
          var j :| 0 <= j < i && ids[..i][j] == ids[i];
          assert ids[..i + 1][j] == ids[..i + 1][i];
        }
        assert seen + {ids[i]} == seen;
      } else {
        if Distinct(ids[..i + 1]) {
          assert forall a, b :: 0 <= a < b < i ==> ids[..i][a] == ids[..i + 1][a] && ids[..i][b] == ids[..i + 1][b];
        }
      }
      seen := seen + {ids[i]};
    }
    assert ids[..|ids|] == ids;
    distinct := |seen| == |ids|;
  }
}
