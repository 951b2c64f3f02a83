/**
  The curation service in cloud mode: the same system over the document transactions of Firestore, with saves whose
  row appears some time after the clock was read. What the cursor passes over is exactly what was not there when the
  page that holds its key was computed.
 */
module CurationRemote {
  import opened Base
  import opened CurationStore
  import opened CurationInvariants
  import opened CurationListing
  import opened CurationProtocol
  import opened CurationFirestore

  ghost predicate SaveDraftRemotely(s: System, t: System, r: RunId, page: Page) {
    (r, page) in s.drafts && PageSavedRemotely(s.store, r, page) == Ok(t.store) && t == s.(store := t.store)
  }

  ghost predicate RecordRemotely(s: System, t: System, r: RunId, i: nat, outcomes: seq<Outcome>) {
    OutcomesRecordedRemotely(s.store, r, i, outcomes) == Ok(t.store) && t == s.(store := t.store)
  }

  /** One step in cloud mode: the document transactions take the place of SQLite's. */
  ghost predicate RemoteNext(s: System, t: System) {
    || Tick(s, t)
    || (exists id, memory :: SaveMemory(s, t, id, memory))
    || (exists id, memory :: ChangeMemory(s, t, id, memory))
    || (exists r, page :: ComputePage(s, t, r, page))
    || (exists r, project, input, now :: BeginRun(s, t, r, project, input, now))
    || (exists r, page :: SaveDraftRemotely(s, t, r, page))
    || (exists r, i, outcomes :: RecordRemotely(s, t, r, i, outcomes))
    || (exists r, now :: CompleteRun(s, t, r, now))
  }

  ghost predicate IsRemoteTrace(tr: seq<System>) {
    |tr| > 0 && Init(tr[0]) && forall i :: 0 <= i < |tr| - 1 ==> RemoteNext(tr[i], tr[i + 1])
  }

  lemma RemoteNextIsNext(s: System, t: System)
    requires ManifestsOk(s.store) && RemoteNext(s, t)
    ensures Next(s, t)
  {
    hide PageSavedRemotely, OutcomesRecordedRemotely, PageSaved, OutcomesRecorded, ManifestsOk;
    hide ComputePage, BeginRun, CompleteRun;
    if r, page :| SaveDraftRemotely(s, t, r, page) {
      SaveRefines(s.store, r, page);
      assert t.store != s.store ==> SaveDraft(s, t, r, page);
      assert t.store == s.store ==> Tick(s, t);
    } else if r, i, outcomes :| RecordRemotely(s, t, r, i, outcomes) {
      RecordRefines(s.store, r, i, outcomes);
      assert RecordOutcomes(s, t, r, i, outcomes);
    }
  }

  /** Every run of the system in cloud mode is one of the system with possibly late saves. */
  lemma {:induction false} RemoteTraceIsTrace(tr: seq<System>, n: nat)
    requires IsRemoteTrace(tr) && n < |tr|
    ensures IsTrace(tr[..n + 1])
  {
    hide Init, Next, RemoteNext, ManifestsOk;
    if n > 0 {
      RemoteTraceIsTrace(tr, n - 1);
      var before, after := tr[..n], tr[..n + 1];
      ManifestsAlways(before, n - 1);
      assert RemoteNext(tr[n - 1], tr[n - 1 + 1]);
      RemoteNextIsNext(tr[n - 1], tr[n]);
      forall i | 0 <= i < |after| - 1 ensures Next(after[i], after[i + 1]) {
        if i < n - 1 { assert Next(before[i], before[i + 1]); }
      }
    }
  }

  /**
    End-to-end safety in cloud mode: a memory created before its project's cursor lies in the window of exactly one
    advanced run, and if it appeared before that run began and stayed active until it completed, the run accounts for
    it.
   */
  lemma RemoteCursorPassesNothingInserted(tr: seq<System>, p: ProjectId, id: MemoryId) returns (r: RunId, j: nat)
    requires IsRemoteTrace(tr)
    requires var s := tr[|tr| - 1];
             p in s.store.cursors && id in s.memories && s.memories[id].project == p
               && s.memories[id].createdAt < s.store.cursors[p]
    ensures var s := tr[|tr| - 1];
            && Covers(tr, p, r, j, s.memories[id].createdAt)
            && (SteadyUntil(tr, id, j) && ThereFromTheStart(tr, r, id, j) ==> AccountedFor(s.store, r, id))
  {
    RemoteTraceIsTrace(tr, |tr| - 1);
    assert tr[..|tr| - 1 + 1] == tr;
    r, j := CursorPassesNothingInserted(tr, p, id);
  }

  /**
    End-to-end, exactly, in cloud mode: a memory created before its project's cursor lies in the window of exactly one
    advanced run, and if it was active whenever it was there until that run completed, the run accounts for it if and
    only if it was there when the page that holds its key was computed.
   */
  lemma RemoteCursorPassesExactly(tr: seq<System>, p: ProjectId, id: MemoryId) returns (r: RunId, j: nat, i: nat)
    requires IsRemoteTrace(tr)
    requires var s := tr[|tr| - 1];
             p in s.store.cursors && id in s.memories && s.memories[id].project == p
               && s.memories[id].createdAt < s.store.cursors[p]
    ensures var s := tr[|tr| - 1];
            && Covers(tr, p, r, j, s.memories[id].createdAt)
            && (SteadyUntil(tr, id, j) ==>
                  && HoldsKey(s.store, r, i, KeyOf(s.memories, id))
                  && (forall q: nat :: HoldsKey(s.store, r, q, KeyOf(s.memories, id)) ==> q == i)
                  && (exists k: nat :: k < j && ComputesAt(tr, r, PageAt(s.store, r, i), k))
                  && forall k: nat :: k < j && ComputesAt(tr, r, PageAt(s.store, r, i), k)
                       ==> (AccountedFor(s.store, r, id) <==> id in tr[k].memories))
  {
    hide HoldsKey, AccountedFor, ComputesAt;
    RemoteTraceIsTrace(tr, |tr| - 1);
    assert tr[..|tr| - 1 + 1] == tr;
    r, j, i := CursorPassesExactly(tr, p, id);
  }

  // ----- A memory that the cursor passes -----

  const LATE_PROJECT: ProjectId := "p"
  const LATE_WINDOW := Window(None, 10, Schedule, false)
  const EMPTY_PAGE := Page(0, None, None, true, [])
  const LATE_MEMORY := Memory(LATE_PROJECT, 5, Active, 1)

  function RunOf(pages: nat, done: nat, closed: bool): Run {
    Run(LATE_PROJECT, LATE_WINDOW, None, Running, pages, done, closed, None, 10, None)
  }

  /**
    A save reads the time 5 and waits for its object to be stored. Meanwhile the clock reaches 10, and a scheduled run
    begins, finds nothing to list and completes. Then the save's row appears, behind the cursor.
   */
  function LateSave(): seq<System> {
    var row := PageRow(EMPTY_PAGE, None, false);
    var begun := Store(map[], map[1 := RunOf(0, 0, false)], map[]);
    var listed := Store(map[], map[1 := RunOf(1, 0, true)], map[(1, 0) := row]);
    var recorded :=
      Store(map[], map[1 := RunOf(1, 1, true)], map[(1, 0) := row.(outcomes := Some([]), complete := true)]);
    var finished := RunOf(1, 1, true).(state := Complete, advanced := Some(true), completedAt := Some(10));
    var completed := recorded.(cursors := map[LATE_PROJECT := 10], runs := map[1 := finished]);
    var drafts := {(1, EMPTY_PAGE)};
    [System(5, map[], Store(map[], map[], map[]), {}),
     System(10, map[], Store(map[], map[], map[]), {}),
     System(10, map[], begun, {}),
     System(10, map[], begun, drafts),
     System(10, map[], listed, drafts),
     System(10, map[], recorded, drafts),
     System(10, map[], completed, drafts),
     System(10, map[1 := LATE_MEMORY], completed, drafts)]
  }

  lemma NothingToList(s: Store)
    requires 1 in s.runs && s.runs[1] == RunOf(0, 0, false)
    ensures Computed(map[], s, 1, EMPTY_PAGE)
  {
    var m: Memories := map[];
    assert Rows(m, LATE_PROJECT, LATE_WINDOW, None) == {};
    assert Sorted({}) == [];
    assert WindowListing(m, s.runs[1], EMPTY_PAGE, 25);
  }

  lemma LateSaveBegins()
    ensures var tr := LateSave(); RemoteNext(tr[0], tr[1]) && RemoteNext(tr[1], tr[2]) && RemoteNext(tr[2], tr[3])
  {
    var tr := LateSave();
    assert Tick(tr[0], tr[1]);
    var input := WindowInput(Schedule, false, None, None);
    assert ParseCurationWindow(input, 10) == Ok(LATE_WINDOW);
    assert Begun(tr[1].store, 1, LATE_PROJECT, LATE_WINDOW, 10) == Ok(tr[2].store);
    assert BeginRun(tr[1], tr[2], 1, LATE_PROJECT, input, 10);
    NothingToList(tr[2].store);
    assert ComputePage(tr[2], tr[3], 1, EMPTY_PAGE);
  }

  lemma LateSaveLists()
    ensures var tr := LateSave(); RemoteNext(tr[3], tr[4]) && RemoteNext(tr[4], tr[5])
  {
    var tr := LateSave();
    assert ItemIds([]) == [] && OutcomeIds([]) == [];
    assert ValidPage(EMPTY_PAGE) && Continues(tr[3].store, 1, EMPTY_PAGE);
    assert tr[4].store == PageInserted(tr[3].store, 1, EMPTY_PAGE);
    assert PageSavedRemotely(tr[3].store, 1, EMPTY_PAGE) == Ok(tr[4].store);
    assert SaveDraftRemotely(tr[3], tr[4], 1, EMPTY_PAGE);
    assert ValidOutcomes([], []);
    assert tr[5].store == PageCompleted(tr[4].store, 1, 0, []);
    assert OutcomesRecordedRemotely(tr[4].store, 1, 0, []) == Ok(tr[5].store);
    assert RecordRemotely(tr[4], tr[5], 1, 0, []);
  }

  lemma LateSaveCompletes()
    ensures var tr := LateSave(); RemoteNext(tr[5], tr[6]) && RemoteNext(tr[6], tr[7])
  {
    var tr := LateSave();
    assert CompleteStep(tr[5].store, tr[6].store, 1, 10);
    assert CompleteRun(tr[5], tr[6], 1, 10);
    assert SaveMemory(tr[6], tr[7], 1, LATE_MEMORY);
  }

  lemma LateSaveIsARun()
    ensures IsRemoteTrace(LateSave())
  {
    hide RemoteNext;
    LateSaveBegins();
    LateSaveLists();
    LateSaveCompletes();
    var tr := LateSave();
    forall i | 0 <= i < |tr| - 1 ensures RemoteNext(tr[i], tr[i + 1]) {
      assert i == 0 || i == 1 || i == 2 || i == 3 || i == 4 || i == 5 || i == 6;
    }
  }

  /** The excepted case happens: the cursor has passed a memory that is active throughout and that no page lists. */
  lemma LateSaveIsPassed()
    ensures IsRemoteTrace(LateSave())
    ensures var tr := LateSave();
            var s := tr[|tr| - 1];
            && LATE_PROJECT in s.store.cursors && 1 in s.memories && s.memories[1].project == LATE_PROJECT
            && s.memories[1].createdAt < s.store.cursors[LATE_PROJECT] && SteadyUntil(tr, 1, |tr| - 1)
            && forall r, i: nat :: !Lists(s.store, r, i, 1)
  {
    LateSaveIsARun();
    assert ItemIds([]) == [];
  }
}
