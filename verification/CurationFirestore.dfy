/**
  The Firestore backend of the curation store. Its transactions check in another order and accept a few
  repeated calls that SQLite refuses, but every change it makes is a change the SQLite store makes, so
  manifests and tiling carry over. `CurationRemote` says what becomes of the end-to-end theorem.
 */
module CurationFirestore {
  import opened Base
  import opened CurationStore
  import opened CurationInvariants

  predicate ReasonOk(reason: string) {
    1 <= |reason| <= 48 && forall c :: c in reason ==> 'a' <= c <= 'z' || '0' <= c <= '9' || c == '_'
  }

  ghost predicate ValidPage(page: Page) {
    PageWithinLimits(page) && Distinct(ItemIds(page.items))
  }

  ghost predicate ValidOutcomes(items: seq<Item>, outcomes: seq<Outcome>) {
    OutcomesMatch(items, outcomes) && forall i :: 0 <= i < |outcomes| ==> ReasonOk(outcomes[i].reason)
  }

  ghost function PageSavedRemotely(s: Store, r: RunId, page: Page): Result<Store, StoreError> {
    if !ValidPage(page) then Err(PageLimits)
    else if r !in s.runs then Err(RunMissing)
    else if (r, page.index) in s.pages then
      if s.pages[(r, page.index)].page != page then Err(PageChanged) else Ok(s)
    else if s.runs[r].state != Running || s.runs[r].snapshotComplete
           || page.index != s.runs[r].pageCount then Err(RunNotOpen)
    else if !Continues(s, r, page) then Err(PageCursorMismatch)
    else Ok(PageInserted(s, r, page))
  }

  ghost function OutcomesRecordedRemotely(s: Store, r: RunId, i: nat,
                                          outcomes: seq<Outcome>): Result<Store, StoreError> {
    if r !in s.runs || (r, i) !in s.pages then Err(PageMissing)
    else if s.runs[r].state != Running then Err(RunNotOpen)
    else if !ValidOutcomes(s.pages[(r, i)].page.items, outcomes) then Err(OutcomesMismatch)
    else if s.pages[(r, i)].complete then
      if s.pages[(r, i)].outcomes != Some(outcomes) then Err(OutcomesChanged) else Ok(s)
    else Ok(PageCompleted(s, r, i, outcomes))
  }

  /** The documents of the backend: runs, pages below them and one cursor per project. */
  class FirestoreCurationStore {
    var cursorDocs: map<ProjectId, Time>
    var runDocs: map<RunId, Run>
    var pageDocs: map<(RunId, nat), PageRow>

    ghost function View(): Store
      reads this
    {
      Store(cursorDocs, runDocs, pageDocs)
    }

    /** `r` is the fresh ULID the source draws. */
    method Begin(r: RunId, project: ProjectId, window: Window, now: Time) returns (result: Result<Run, StoreError>)
      requires r !in runDocs
      modifies this
      ensures Begun(old(View()), r, project, window, now) == if result.Ok? then Ok(View()) else Err(result.error)
      ensures result.Err? ==> View() == old(View())
      ensures result.Ok? ==> r in runDocs && result.value == runDocs[r]
    {
      if project == SHARED_PROJECT_ID || window.dryRun { return Err(InvalidRun); }
      var current := if project in cursorDocs then Some(cursorDocs[project]) else None;
      var run := Run(project, if window.from.None? && current.Some? then window.(from := current) else window, current,
                     Running, 0, 0, false, None, now, None);
      if run.window.from.Some? && run.window.from.value >= run.window.to { return Err(EmptyWindow); }
      runDocs := runDocs[r := run];
      result := Ok(run);
    }

    method SavePage(r: RunId, page: Page) returns (result: Result<(), StoreError>)
      modifies this
      ensures PageSavedRemotely(old(View()), r, page) == if result.Ok? then Ok(View()) else Err(result.error)
      ensures result.Err? ==> View() == old(View())
    {
      if !PageWithinLimits(page) { return Err(PageLimits); }
      var distinct := AllDistinct(ItemIds(page.items));
      if !distinct { return Err(PageLimits); }
      if r !in runDocs { return Err(RunMissing); }
      var run := runDocs[r];
      if (r, page.index) in pageDocs {
        if pageDocs[(r, page.index)].page != page { return Err(PageChanged); }
        return Ok(());
      }
      if run.state != Running || run.snapshotComplete || page.index != run.pageCount { return Err(RunNotOpen); }
      if page.index == 0 && page.after.Some? { return Err(PageCursorMismatch); }
      if page.index > 0 {
        if (r, page.index - 1) !in pageDocs { return Err(PageCursorMismatch); }
        var previous := pageDocs[(r, page.index - 1)].page;
        if previous.snapshotComplete || previous.nextAfter != page.after { return Err(PageCursorMismatch); }
      }
      pageDocs := pageDocs[(r, page.index) := PageRow(page, None, false)];
      runDocs := runDocs[r := run.(pageCount := run.pageCount + 1, snapshotComplete := page.snapshotComplete)];
      result := Ok(());
    }

    method RecordOutcomes(r: RunId, i: nat, outcomes: seq<Outcome>) returns (result: Result<(), StoreError>)
      modifies this
      ensures OutcomesRecordedRemotely(old(View()), r, i, outcomes)
              == if result.Ok? then Ok(View()) else Err(result.error)
      ensures result.Err? ==> View() == old(View())
    {
      if r !in runDocs || (r, i) !in pageDocs { return Err(PageMissing); }
      if runDocs[r].state != Running { return Err(RunNotOpen); }
      var row := pageDocs[(r, i)];
      var distinct := AllDistinct(OutcomeIds(outcomes));
      if multiset(ItemIds(row.page.items)) != multiset(OutcomeIds(outcomes)) || !distinct
         || exists k :: 0 <= k < |outcomes| && !ReasonOk(outcomes[k].reason) {
        return Err(OutcomesMismatch);
      }
      if row.complete {
        if row.outcomes != Some(outcomes) { return Err(OutcomesChanged); }
        return Ok(());
      }
      pageDocs := pageDocs[(r, i) := row.(outcomes := Some(outcomes), complete := true)];
      runDocs := runDocs[r := runDocs[r].(completedPageCount := runDocs[r].completedPageCount + 1)];
      result := Ok(());
    }

    method CompleteRun(r: RunId, now: Time) returns (result: Result<Completion, StoreError>)
      modifies this
      ensures Completed(old(View()), r, now) == if result.Ok? then Ok((View(), result.value)) else Err(result.error)
      ensures result.Err? ==> View() == old(View())
    {
      if r !in runDocs { return Err(RunMissing); }
      var run := runDocs[r];
      var current := if run.project in cursorDocs then Some(cursorDocs[run.project]) else None;
      if run.state == Complete { return Ok(Completion(current, run.advanced == Some(true))); }
      if !run.snapshotComplete || run.pageCount == 0 || run.completedPageCount != run.pageCount {
        return Ok(Completion(current, false));
      }
      var shouldAdvance := run.window.mode == Schedule && !run.window.dryRun && current == run.cursorBefore;
      var next := if shouldAdvance then Some(run.window.to) else current;
      if shouldAdvance { cursorDocs := cursorDocs[run.project := run.window.to]; }
      runDocs := runDocs[r := run.(state := Complete, advanced := Some(shouldAdvance), completedAt := Some(now))];
      result := Ok(Completion(next, shouldAdvance));
    }
  }

  /**
    Saving a page: the backends differ in exactly two ways. Firestore refuses a page that lists a memory
    twice, and it accepts the repetition of a stored page even after the snapshot or the run is closed.
   */
  lemma SaveRefines(s: Store, r: RunId, page: Page)
    requires ManifestsOk(s)
    ensures PageSavedRemotely(s, r, page).Ok? <==>
            (Distinct(ItemIds(page.items))
             && (PageSaved(s, r, page).Ok? || ((r, page.index) in s.pages && s.pages[(r, page.index)].page == page)))
    ensures PageSavedRemotely(s, r, page).Ok? ==>
            PageSavedRemotely(s, r, page) == if (r, page.index) in s.pages then Ok(s) else PageSaved(s, r, page)
  {
    if (r, page.index) in s.pages {
      assert ManifestOk(s, r) && RowOk(s, r, page.index);
    }
  }

  /** One to 48 lower-case letters, digits and underscores. */
  ghost predicate IsReasonCode(reason: string) {
    && 1 <= |reason| <= 48
    && forall i :: 0 <= i < |reason|
         ==> 97 <= reason[i] as int <= 122 || 48 <= reason[i] as int <= 57 || reason[i] as int == 95
  }

  lemma ReasonCodeIff(reason: string)
    ensures ReasonOk(reason) <==> IsReasonCode(reason)
  {
    if ReasonOk(reason) {
      forall i | 0 <= i < |reason|
        ensures 97 <= reason[i] as int <= 122 || 48 <= reason[i] as int <= 57 || reason[i] as int == 95
      {
        assert reason[i] in reason;
      }
    }
  }

  /** Recording outcomes: Firestore also checks the form of the reason codes. */
  lemma RecordRefines(s: Store, r: RunId, i: nat, outcomes: seq<Outcome>)
    requires ManifestsOk(s)
    ensures OutcomesRecordedRemotely(s, r, i, outcomes).Ok? <==>
            (OutcomesRecorded(s, r, i, outcomes).Ok?
             && forall k :: 0 <= k < |outcomes| ==> IsReasonCode(outcomes[k].reason))
    ensures OutcomesRecordedRemotely(s, r, i, outcomes).Ok? ==>
            OutcomesRecordedRemotely(s, r, i, outcomes) == OutcomesRecorded(s, r, i, outcomes)
  {
    forall k | 0 <= k < |outcomes| ensures ReasonOk(outcomes[k].reason) <==> IsReasonCode(outcomes[k].reason) {
      ReasonCodeIff(outcomes[k].reason);
    }
  }

  /** The four document transactions, as one relation between stores. */
  ghost predicate RemoteStep(s: Store, t: Store) {
    || (exists r, project, window, now :: BeginStep(s, t, r, project, window, now))
    || (exists r, page :: PageSavedRemotely(s, r, page) == Ok(t))
    || (exists r, i, outcomes :: OutcomesRecordedRemotely(s, r, i, outcomes) == Ok(t))
    || (exists r, now :: CompleteStep(s, t, r, now))
  }

  /** So a Firestore transaction keeps every manifest and the tiling: it is one of SQLite's or changes nothing. */
  lemma RemoteStepKeepsInvariants(s: Store, t: Store)
    requires ManifestsOk(s) && TilingOk(s) && RemoteStep(s, t)
    ensures t == s || StoreStep(s, t)
    ensures ManifestsOk(t) && TilingOk(t)
  {
    if t != s {
      RemoteStepIsStep(s, t);
      StepKeepsManifests(s, t);
      StepKeepsTiling(s, t);
    }
  }

  lemma RemoteStepIsStep(s: Store, t: Store)
    requires ManifestsOk(s) && RemoteStep(s, t) && t != s
    ensures StoreStep(s, t)
  {
    hide PageSavedRemotely, OutcomesRecordedRemotely, PageSaved, OutcomesRecorded, Completed, Begun, ManifestsOk;
    if r, page :| PageSavedRemotely(s, r, page) == Ok(t) {
      SaveRefines(s, r, page);
      assert SaveStep(s, t, r, page);
    } else if r, i, outcomes :| OutcomesRecordedRemotely(s, r, i, outcomes) == Ok(t) {
      RecordRefines(s, r, i, outcomes);
      assert RecordStep(s, t, r, i, outcomes);
    }
  }

  /**
    In every run of Firestore transactions the manifests are in order and the advanced windows tile the time below each
    cursor.
   */
  lemma {:induction false} RemoteRunKeepsInvariants(tr: seq<Store>, n: nat)
    requires |tr| > 0 && tr[0] == Store(map[], map[], map[]) && n < |tr|
    requires forall i :: 0 <= i < |tr| - 1 ==> RemoteStep(tr[i], tr[i + 1])
    ensures ManifestsOk(tr[n]) && TilingOk(tr[n])
  {
    if n > 0 {
      RemoteRunKeepsInvariants(tr, n - 1);
      assert RemoteStep(tr[n - 1], tr[n - 1 + 1]);
      RemoteStepKeepsInvariants(tr[n - 1], tr[n]);
    }
  }
}
