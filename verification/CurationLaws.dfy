/**
  What the transactions of the curation store accept and what they write, field by field, and what a finished run
  achieves: the invariants say that nothing wrong happens, these laws that the right thing does.
 */
module CurationLaws {
  import opened Base
  import opened CurationStore
  import opened CurationInvariants
  import opened CurationListing
  import opened CurationProtocol

  /** A window comes from a request without dates, ending now, or from two ascending calendar days of a manual one. */
  lemma ParseIs(input: WindowInput, now: Time)
    ensures var parsed, from, to := ParseCurationWindow(input, now), input.fromDate, input.toDate;
            var days := from.Some? && to.Some? && from.value.Day? && to.value.Day?;
            && (parsed.Ok? <==> (from.None? && to.None?)
                                || (days && input.mode == Manual && from.value.n < to.value.n))
            && (from.None? && to.None? ==> parsed == Ok(Window(None, now, input.mode, input.dryRun)))
            && (parsed.Ok? && days ==>
                  parsed.value
                  == Window(Some(from.value.n * 86_400_000), to.value.n * 86_400_000, Manual, input.dryRun))
  {
  }

  /** A page is listed with a limit that needs no halving. */
  ghost predicate Settles(m: Memories, project: ProjectId, window: Window, after: Option<Key>, limit: nat) {
    var items := ListCurationMemories(m, project, window, after, limit).items;
    PageJsonBytes(m, items) <= PAGE_BYTES || |items| <= 1
  }

  /** The loop takes the largest of the limits 25, 12, 6, 3 and 1 that needs no halving. */
  lemma SettledLimitIs(m: Memories, project: ProjectId, window: Window, after: Option<Key>)
    ensures SettledLimit(m, project, window, after, PAGE_SIZE)
            == if Settles(m, project, window, after, 25) then 25
               else if Settles(m, project, window, after, 12) then 12
               else if Settles(m, project, window, after, 6) then 6
               else if Settles(m, project, window, after, 3) then 3
               else 1
  {
    hide ListCurationMemories, PageJsonBytes;
    ItemsWithinLimit(m, project, window, after, 1);
    assert SettledLimit(m, project, window, after, 1) == 1;
    assert Halved(25) == 12 && Halved(12) == 6 && Halved(6) == 3 && Halved(3) == 1;
    assert SettledLimit(m, project, window, after, 3) == if Settles(m, project, window, after, 3) then 3 else 1;
    assert SettledLimit(m, project, window, after, 6)
      == if Settles(m, project, window, after, 6) then 6 else SettledLimit(m, project, window, after, 3);
    assert SettledLimit(m, project, window, after, 12)
      == if Settles(m, project, window, after, 12) then 12 else SettledLimit(m, project, window, after, 6);
  }

  /**
    A run begins for a project of its own and a window that is not empty, and takes its missing lower bound from the
    cursor.
   */
  lemma BeginIs(s: Store, r: RunId, project: ProjectId, window: Window, now: Time)
    ensures var begun := Begun(s, r, project, window, now);
            var from := if window.from.Some? then window.from
                        else if project in s.cursors then Some(s.cursors[project]) else None;
            && (begun.Ok? <==> project != "__shared__" && !window.dryRun && (from.Some? ==> from.value < window.to))
            && (begun.Ok? ==>
                  var t := begun.value;
                  && t.cursors == s.cursors && t.pages == s.pages && t.runs.Keys == s.runs.Keys + {r}
                  && (forall q :: q in s.runs && q != r ==> t.runs[q] == s.runs[q])
                  && t.runs[r].project == project && t.runs[r].window == Window(from, window.to, window.mode, false)
                  && t.runs[r].cursorBefore == (if project in s.cursors then Some(s.cursors[project]) else None)
                  && t.runs[r].state == Running && t.runs[r].advanced.None? && !t.runs[r].snapshotComplete
                  && t.runs[r].pageCount == 0 && t.runs[r].completedPageCount == 0 && t.runs[r].createdAt == now)
  {
  }

  ghost predicate IsHexDigest(hash: string) {
    |hash| == 64 && forall i :: 0 <= i < 64 ==> '0' <= hash[i] <= '9' || 'a' <= hash[i] <= 'f'
  }

  /** A running run takes its next page if that continues the last one, and a saved page again if it is the same. */
  lemma SaveIs(s: Store, r: RunId, page: Page)
    ensures var saved, n := PageSaved(s, r, page), page.index;
            var open := r in s.runs && s.runs[r].state == Running && !s.runs[r].snapshotComplete;
            && ((r, n) in s.pages
                ==> (saved.Ok? <==> open && s.pages[(r, n)].page == page) && (saved.Ok? ==> saved.value == s))
            && ((r, n) !in s.pages ==>
                  && (saved.Ok? <==>
                        && open && n == s.runs[r].pageCount
                        && (n == 0 ==> page.after.None?)
                        && (n > 0 ==> (r, n - 1) in s.pages && !s.pages[(r, n - 1)].page.snapshotComplete
                                      && s.pages[(r, n - 1)].page.nextAfter == page.after)
                        && |page.items| <= 25
                        && forall i :: 0 <= i < |page.items| ==> IsHexDigest(page.items[i].contentHash))
                  && (saved.Ok? ==>
                        && saved.value.cursors == s.cursors
                        && saved.value.pages == s.pages[(r, n) := PageRow(page, None, false)]
                        && saved.value.runs
                           == s.runs[r := s.runs[r].(pageCount := n + 1, snapshotComplete := page.snapshotComplete)]))
  {
    forall i | 0 <= i < |page.items|
      ensures HashOk(page.items[i].contentHash) <==> IsHexDigest(page.items[i].contentHash)
    {
      HexDigestIff(page.items[i].contentHash);
    }
  }

  lemma HexDigestIff(hash: string)
    ensures HashOk(hash) <==> IsHexDigest(hash)
  {
    if HashOk(hash) {
      forall i | 0 <= i < 64 ensures '0' <= hash[i] <= '9' || 'a' <= hash[i] <= 'f' { assert hash[i] in hash; }
    }
  }

  /** A page takes outcomes for exactly its memories, one each; later only the same ones again. */
  lemma RecordIs(s: Store, r: RunId, i: nat, outcomes: seq<Outcome>)
    ensures var recorded := OutcomesRecorded(s, r, i, outcomes);
            var open := r in s.runs && s.runs[r].state == Running && (r, i) in s.pages;
            && (recorded.Ok? <==>
                  && open
                  && (forall id ::
                        multiset(ItemIds(s.pages[(r, i)].page.items))[id] == multiset(OutcomeIds(outcomes))[id])
                  && (forall a, b :: 0 <= a < b < |outcomes| ==> outcomes[a].memoryId != outcomes[b].memoryId)
                  && (s.pages[(r, i)].complete ==> s.pages[(r, i)].outcomes == Some(outcomes)))
            && (recorded.Ok? && s.pages[(r, i)].complete ==> recorded.value == s)
            && (recorded.Ok? && !s.pages[(r, i)].complete ==>
                  && recorded.value.cursors == s.cursors
                  && recorded.value.pages == s.pages[(r, i) := PageRow(s.pages[(r, i)].page, Some(outcomes), true)]
                  && recorded.value.runs
                     == s.runs[r := s.runs[r].(completedPageCount := s.runs[r].completedPageCount + 1)])
  {
    if r in s.runs && (r, i) in s.pages {
      var items := multiset(ItemIds(s.pages[(r, i)].page.items));
      assert (forall id :: items[id] == multiset(OutcomeIds(outcomes))[id])
        <==> items == multiset(OutcomeIds(outcomes));
      forall a, b | 0 <= a < b < |outcomes|
        ensures OutcomeIds(outcomes)[a] == outcomes[a].memoryId && OutcomeIds(outcomes)[b] == outcomes[b].memoryId {}
    }
  }

  /** Everything a run has to have done is done. */
  ghost predicate Finished(s: Store, r: RunId)
    requires r in s.runs
  {
    && s.runs[r].state == Running && s.runs[r].snapshotComplete && s.runs[r].pageCount > 0
    && forall i: nat :: i < s.runs[r].pageCount ==> (r, i) in s.pages && s.pages[(r, i)].outcomes.Some?
  }

  lemma {:induction false} AllDoneIff(s: Store, r: RunId, n: nat)
    ensures DonePages(s, r, n) == n <==> forall i: nat :: i < n ==> (r, i) in s.pages && s.pages[(r, i)].complete
  {
    if n > 0 { AllDoneIff(s, r, n - 1); }
  }

  /**
    A finished run completes, whenever it is asked to. It moves the cursor to the end of its window and reports so if
    and only if it is scheduled, no dry run, and the cursor is where it was when the run began; otherwise the cursors
    stay. A run that is not finished, or complete already, is left alone.
   */
  lemma CompletionIs(s: Store, r: RunId, now: Time)
    requires ManifestsOk(s) && r in s.runs
    ensures Completed(s, r, now).Ok?
    ensures var (t, answer) := Completed(s, r, now).value;
            var run := s.runs[r];
            var cursor := if run.project in s.cursors then Some(s.cursors[run.project]) else None;
            var advances := Finished(s, r) && run.window.mode == Schedule && !run.window.dryRun
              && cursor == run.cursorBefore;
            && (!Finished(s, r) ==> t == s)
            && (Finished(s, r) ==>
                  && t.runs
                     == s.runs[r := run.(state := Complete, advanced := Some(advances), completedAt := Some(now))])
            && t.pages == s.pages
            && t.cursors == (if advances then s.cursors[run.project := run.window.to] else s.cursors)
            && answer.cursor == (if advances then Some(run.window.to) else cursor)
            && (answer.advanced <==> advances || (run.state == Complete && run.advanced == Some(true)))
  {
    assert ManifestOk(s, r);
    var n := s.runs[r].pageCount;
    AllDoneIff(s, r, n);
    forall i: nat | i < n ensures (r, i) in s.pages && (s.pages[(r, i)].complete <==> s.pages[(r, i)].outcomes.Some?) {
      assert RowOk(s, r, i);
    }
  }

  // ----- Over traces -----

  /** What a run is begun with stays. */
  ghost predicate SameStart(a: Run, b: Run) {
    a.project == b.project && a.window == b.window && a.cursorBefore == b.cursorBefore
  }

  lemma StepKeepsStart(s: System, t: System, r: RunId)
    requires Next(s, t) && r in s.store.runs
    ensures r in t.store.runs && SameStart(s.store.runs[r], t.store.runs[r])
  {
    hide Next, StoreStep;
    NextIsStoreStep(s, t);
    if t.store != s.store { StoreStepKeepsStart(s.store, t.store, r); }
  }

  lemma StoreStepKeepsStart(s: Store, t: Store, r: RunId)
    requires StoreStep(s, t) && r in s.runs
    ensures r in t.runs && SameStart(s.runs[r], t.runs[r])
  {
  }

  lemma {:induction false} StartStays(tr: seq<System>, r: RunId, i: nat, j: nat)
    requires IsTrace(tr) && i <= j < |tr| && r in tr[i].store.runs
    ensures r in tr[j].store.runs && SameStart(tr[i].store.runs[r], tr[j].store.runs[r])
  {
    hide Next;
    if i < j {
      StartStays(tr, r, i, j - 1);
      TraceStep(tr, j);
      StepKeepsStart(tr[j - 1], tr[j], r);
    }
  }

  /** The run is there in state k + 1 and was not before. */
  ghost predicate BeginsAt(tr: seq<System>, r: RunId, k: nat) {
    k + 1 < |tr| && r !in tr[k].store.runs && r in tr[k + 1].store.runs
  }

  lemma BegunRun(s: System, t: System, r: RunId)
    requires Next(s, t) && r !in s.store.runs && r in t.store.runs
    ensures !t.store.runs[r].window.dryRun && t.store.runs[r].cursorBefore == Cursor(s.store, t.store.runs[r].project)
    ensures t.store.cursors == s.store.cursors
  {
    hide Next, StoreStep;
    NextIsStoreStep(s, t);
    BegunInStore(s.store, t.store, r);
  }

  lemma BegunInStore(s: Store, t: Store, r: RunId)
    requires StoreStep(s, t) && r !in s.runs && r in t.runs
    ensures !t.runs[r].window.dryRun && t.runs[r].cursorBefore == Cursor(s, t.runs[r].project) && t.cursors == s.cursors
  {
  }

  /**
    A scheduled run that is finished, and whose project's cursor is where it was when the run began, advances when it is
    completed: the cursor is then at the end of its window, whatever the time.
   */
  lemma FinishedRunAdvances(tr: seq<System>, r: RunId, k: nat, n: nat, now: Time)
    requires IsTrace(tr) && BeginsAt(tr, r, k) && k + 1 <= n && n + 1 < |tr| && CompleteRun(tr[n], tr[n + 1], r, now)
    requires r in tr[n].store.runs && Finished(tr[n].store, r) && tr[n].store.runs[r].window.mode == Schedule
    requires var p := tr[n].store.runs[r].project; Cursor(tr[n].store, p) == Cursor(tr[k].store, p)
    ensures var p, t := tr[n].store.runs[r].project, tr[n + 1].store;
            && t.runs[r].state == Complete && t.runs[r].advanced == Some(true)
            && p in t.cursors && t.cursors[p] == tr[n].store.runs[r].window.to
            && forall q :: q != p ==> (q in t.cursors <==> q in tr[n].store.cursors)
                                      && (q in t.cursors ==> t.cursors[q] == tr[n].store.cursors[q])
  {
    hide Next, Finished;
    TraceStep(tr, k + 1);
    BegunRun(tr[k], tr[k + 1], r);
    StartStays(tr, r, k + 1, n);
    ManifestsAlways(tr, n);
    CompletionIs(tr[n].store, r, now);
    assert CompleteStep(tr[n].store, tr[n + 1].store, r, now);
  }

  /** A finished run can be completed at any time: the step is there to be taken. */
  lemma FinishedRunCanComplete(s: System, r: RunId, now: Time) returns (t: System)
    requires ManifestsOk(s.store) && r in s.store.runs && Finished(s.store, r)
    ensures Next(s, t) && CompleteRun(s, t, r, now) && t.store.runs[r].state == Complete
  {
    CompletionIs(s.store, r, now);
    t := s.(store := Completed(s.store, r, now).value.0);
    assert CompleteRun(s, t, r, now);
  }

  // ----- An undisturbed run -----

  ghost predicate IsPath(path: seq<System>, s: System) {
    |path| > 0 && path[0] == s && forall i :: 0 <= i < |path| - 1 ==> Next(path[i], path[i + 1])
  }

  lemma PathAppend(path: seq<System>, s: System, t: System)
    requires IsPath(path, s) && Next(path[|path| - 1], t)
    ensures IsPath(path + [t], s) && (path + [t])[|path + [t]| - 1] == t
  {
    hide Next;
    var more := path + [t];
    forall i | 0 <= i < |more| - 1 ensures Next(more[i], more[i + 1]) {
      if i < |path| - 1 { assert more[i] == path[i] && more[i + 1] == path[i + 1]; }
    }
  }

  lemma PathJoin(path: seq<System>, s: System, rest: seq<System>)
    requires IsPath(path, s) && IsPath(rest, path[|path| - 1])
    ensures IsPath(path + rest[1..], s) && (path + rest[1..])[|path + rest[1..]| - 1] == rest[|rest| - 1]
  {
    hide Next;
    var more := path + rest[1..];
    forall i | 0 <= i < |more| - 1 ensures Next(more[i], more[i + 1]) {
      if i < |path| - 1 { assert more[i] == path[i] && more[i + 1] == path[i + 1]; }
      else { assert more[i] == rest[i - (|path| - 1)] && more[i + 1] == rest[i + 1 - (|path| - 1)]; }
    }
  }

  /** The run is scheduled and under way: all its pages have their outcomes, and the next one starts after the key. */
  ghost predicate UnderWay(s: Store, r: RunId, after: Option<Key>) {
    && r in s.runs && s.runs[r].state == Running && !s.runs[r].snapshotComplete
    && s.runs[r].completedPageCount == s.runs[r].pageCount
    && var n := s.runs[r].pageCount;
       if n == 0 then after.None?
       else after.Some? && (r, n - 1) in s.pages && !PageAt(s, r, n - 1).snapshotComplete
            && PageAt(s, r, n - 1).nextAfter == Some(WindowAfter(after))
  }

  const ZEROES: string := seq(64, i => '0')

  function PageOf(listing: Listing, n: nat, after: Option<Key>): Page {
    Page(n, if n == 0 then None else Some(WindowAfter(after)),
         if listing.nextAfter.None? then None else Some(WindowAfter(listing.nextAfter)), listing.nextAfter.None?,
         seq(|listing.items|, i requires 0 <= i < |listing.items| => Item(listing.items[i].id, ZEROES)))
  }

  function OutcomesOf(page: Page): seq<Outcome> {
    seq(|page.items|, i requires 0 <= i < |page.items| => Outcome(page.items[i].memoryId, NoOp, "none"))
  }

  lemma ListedIdsDistinct(m: Memories, project: ProjectId, window: Window, after: Option<Key>, limit: int)
    ensures var items := ListCurationMemories(m, project, window, after, limit).items;
            forall a, b :: 0 <= a < b < |items| ==> items[a].id != items[b].id
  {
    hide Rows;
    var items := ListCurationMemories(m, project, window, after, limit).items;
    var all := Sorted(Rows(m, project, window, after));
    var n := Bounded(limit);
    ActiveOfElements(m, if |all| > n then all[..n] else all);
    forall a, b | 0 <= a < b < |items| ensures items[a].id != items[b].id {
      ListedIsRow(m, project, window, after, limit, items[a]);
      ListedIsRow(m, project, window, after, limit, items[b]);
      RowIsKey(m, project, window, after, items[a]);
      RowIsKey(m, project, window, after, items[b]);
      assert Less(items[a], items[b]);
    }
  }

  lemma RowIsKey(m: Memories, project: ProjectId, window: Window, after: Option<Key>, k: Key)
    requires k in Rows(m, project, window, after)
    ensures k.id in m && k == KeyOf(m, k.id)
  {
  }

  /** The next page of a run under way can be computed and saved, and its outcomes recorded. */
  lemma OnePageMore(s: System, r: RunId, after: Option<Key>) returns (path: seq<System>, listing: Listing)
    requires ManifestsOk(s.store) && UnderWay(s.store, r, after)
    requires SnapshotPage(s.memories, s.store.runs[r].project, s.store.runs[r].window, after).Ok?
    ensures listing == SnapshotPage(s.memories, s.store.runs[r].project, s.store.runs[r].window, after).value
    ensures IsPath(path, s)
    ensures var t := path[|path| - 1];
            && ManifestsOk(t.store) && t.memories == s.memories && t.clock == s.clock
               && t.store.cursors == s.store.cursors
            && r in t.store.runs && SameStart(s.store.runs[r], t.store.runs[r])
            && (listing.nextAfter.Some? ==> UnderWay(t.store, r, listing.nextAfter))
            && (listing.nextAfter.None? ==> Finished(t.store, r))
  {
    var run := s.store.runs[r];
    var n := run.pageCount;
    listing := SnapshotPage(s.memories, run.project, run.window, after).value;
    var limit := SettledLimit(s.memories, run.project, run.window, after, PAGE_SIZE);
    var page := PageOf(listing, n, after);
    PageIsComputed(s, r, after, limit, listing);
    ItemsWithinLimit(s.memories, run.project, run.window, after, limit);
    ListedIdsDistinct(s.memories, run.project, run.window, after, limit);
    hide ManifestsOk, Computed, Next, Finished, SnapshotPage, SettledLimit, ListCurationMemories;
    var s1 := s.(drafts := s.drafts + {(r, page)});
    assert ComputePage(s, s1, r, page);
    var s2 := PageCanBeSaved(s1, r, page, after);
    var s3 := OutcomesCanBeRecorded(s2, r, page, after);
    hide ComputePage, UnderWay, IsPath;
    path := PathOfThree(s, s1, s2, s3, r, page);
    PageIsDone(s.store, s3.store, r, page, after);
  }

  /** A run that has got one more page, with its outcomes, is under way still, or finished if that was the last one. */
  lemma PageIsDone(s: Store, t: Store, r: RunId, page: Page, after: Option<Key>)
    requires ManifestsOk(t) && UnderWay(s, r, after) && page.index == s.runs[r].pageCount && r in t.runs
    requires t.runs[r] == s.runs[r].(pageCount := page.index + 1, completedPageCount := page.index + 1,
                                     snapshotComplete := page.snapshotComplete)
    requires (r, page.index) in t.pages && t.pages[(r, page.index)].page == page
    ensures (!page.snapshotComplete && page.nextAfter.Some? && page.nextAfter.value.WindowAfter?
             && page.nextAfter.value.key.Some?)
            ==> UnderWay(t, r, page.nextAfter.value.key)
    ensures page.snapshotComplete ==> Finished(t, r)
  {
    if page.snapshotComplete { CountedIsFinished(t, r); }
  }

  lemma PathOfThree(s: System, s1: System, s2: System, s3: System, r: RunId, page: Page) returns (path: seq<System>)
    requires ComputePage(s, s1, r, page) && Next(s1, s2) && Next(s2, s3)
    ensures IsPath(path, s) && path[|path| - 1] == s3
  {
    assert Next(s, s1);
    hide Next;
    PathAppend([s], s, s1);
    PathAppend([s] + [s1], s, s2);
    PathAppend([s] + [s1] + [s2], s, s3);
    path := [s] + [s1] + [s2] + [s3];
  }

  lemma PageCanBeSaved(s: System, r: RunId, page: Page, after: Option<Key>) returns (t: System)
    requires ManifestsOk(s.store) && UnderWay(s.store, r, after) && page.index == s.store.runs[r].pageCount
    requires page.after == if page.index == 0 then None else Some(WindowAfter(after))
    requires |page.items| <= PAGE_SIZE && forall i :: 0 <= i < |page.items| ==> page.items[i].contentHash == ZEROES
    requires (r, page) in s.drafts
    ensures t == s.(store := t.store) && t.store.cursors == s.store.cursors && r in t.store.runs
    ensures t.store.runs[r]
            == s.store.runs[r].(pageCount := page.index + 1, snapshotComplete := page.snapshotComplete)
    ensures t.store.pages == s.store.pages[(r, page.index) := PageRow(page, None, false)]
    ensures Next(s, t) && ManifestsOk(t.store)
  {
    PageIsTaken(s.store, r, page, after);
    SaveIs(s.store, r, page);
    t := s.(store := PageSaved(s.store, r, page).value);
    hide PageSaved;
    assert SaveDraft(s, t, r, page);
    StepKeepsManifests(s.store, t.store);
  }

  lemma OutcomesCanBeRecorded(s: System, r: RunId, page: Page, after: Option<Key>) returns (t: System)
    requires ManifestsOk(s.store) && r in s.store.runs && s.store.runs[r].state == Running
    requires (r, page.index) in s.store.pages && s.store.pages[(r, page.index)] == PageRow(page, None, false)
    requires forall a, b :: 0 <= a < b < |page.items| ==> page.items[a].memoryId != page.items[b].memoryId
    ensures t.store.cursors == s.store.cursors && t == s.(store := t.store)
    ensures t.store.pages == s.store.pages[(r, page.index) := PageRow(page, Some(OutcomesOf(page)), true)]
    ensures r in t.store.runs
    ensures t.store.runs[r] == s.store.runs[r].(completedPageCount := s.store.runs[r].completedPageCount + 1)
    ensures Next(s, t) && ManifestsOk(t.store)
  {
    var outcomes := OutcomesOf(page);
    assert ItemIds(page.items) == OutcomeIds(outcomes);
    RecordIs(s.store, r, page.index, outcomes);
    t := s.(store := OutcomesRecorded(s.store, r, page.index, outcomes).value);
    hide OutcomesRecorded;
    assert RecordOutcomes(s, t, r, page.index, outcomes);
    StepKeepsManifests(s.store, t.store);
  }

  lemma PageIsComputed(s: System, r: RunId, after: Option<Key>, limit: nat, listing: Listing)
    requires UnderWay(s.store, r, after)
    requires listing == ListCurationMemories(s.memories, s.store.runs[r].project, s.store.runs[r].window, after, limit)
    ensures Computed(s.memories, s.store, r, PageOf(listing, s.store.runs[r].pageCount, after))
  {
    var page := PageOf(listing, s.store.runs[r].pageCount, after);
    assert Start(page) == after;
    assert WindowListing(s.memories, s.store.runs[r], page, limit);
  }

  lemma PageIsTaken(s: Store, r: RunId, page: Page, after: Option<Key>)
    requires ManifestsOk(s) && UnderWay(s, r, after) && page.index == s.runs[r].pageCount
    requires page.after == if page.index == 0 then None else Some(WindowAfter(after))
    requires |page.items| <= PAGE_SIZE && forall i :: 0 <= i < |page.items| ==> page.items[i].contentHash == ZEROES
    ensures PageSaved(s, r, page).Ok? && (r, page.index) !in s.pages
  {
    assert ManifestOk(s, r);
    assert HashOk(ZEROES);
    SaveIs(s, r, page);
  }

  lemma CountedIsFinished(s: Store, r: RunId)
    requires ManifestsOk(s) && r in s.runs && s.runs[r].state == Running && s.runs[r].snapshotComplete
    requires s.runs[r].pageCount > 0 && s.runs[r].completedPageCount == s.runs[r].pageCount
    ensures Finished(s, r)
  {
    assert ManifestOk(s, r);
    AllDoneIff(s, r, s.runs[r].pageCount);
    forall i: nat | i < s.runs[r].pageCount ensures (r, i) in s.pages && s.pages[(r, i)].outcomes.Some? {
      assert RowOk(s, r, i);
    }
  }

  /** A run under way whose remaining memories all fit on pages can be brought to its end. */
  lemma {:induction false} RunCanFinish(s: System, r: RunId, after: Option<Key>) returns (path: seq<System>)
    requires ManifestsOk(s.store) && UnderWay(s.store, r, after)
    requires FollowPages(s.memories, s.store.runs[r].project, s.store.runs[r].window, after).Ok?
    ensures IsPath(path, s)
    ensures var t := path[|path| - 1];
            && ManifestsOk(t.store) && t.memories == s.memories && t.clock == s.clock
               && t.store.cursors == s.store.cursors
            && r in t.store.runs && SameStart(s.store.runs[r], t.store.runs[r]) && Finished(t.store, r)
    decreases |Rows(s.memories, s.store.runs[r].project, s.store.runs[r].window, after)|
  {
    assert r in s.store.runs;
    hide UnderWay, Finished, Rows, SnapshotPage, Next;
    var project, window := s.store.runs[r].project, s.store.runs[r].window;
    var first, listing := OnePageMore(s, r, after);
    path := first;
    if listing.nextAfter.Some? {
      NextPageIsShorter(s.memories, project, window, after);
      var rest := RunCanFinish(first[|first| - 1], r, listing.nextAfter);
      PathJoin(first, s, rest);
      path := first + rest[1..];
    }
  }

  /**
    What curation is for: from any state in which the memories since the cursor fit on pages, a scheduled run of the
    project can begin now, list them, record their outcomes and complete, and the cursor is then at the present.
   */
  lemma UndisturbedRunAdvances(s: System, project: ProjectId, r: RunId) returns (path: seq<System>)
    requires ManifestsOk(s.store) && r !in s.store.runs && project != SHARED_PROJECT_ID
    requires project in s.store.cursors ==> s.store.cursors[project] < s.clock
    requires FollowPages(s.memories, project, Window(Cursor(s.store, project), s.clock, Schedule, false), None).Ok?
    ensures IsPath(path, s)
    ensures var t := path[|path| - 1].store;
            && project in t.cursors && t.cursors[project] == s.clock
            && r in t.runs && t.runs[r].state == Complete && t.runs[r].advanced == Some(true)
  {
    hide Next, Finished, FollowPages;
    var input, now := WindowInput(Schedule, false, None, None), s.clock;
    var window := Window(None, now, Schedule, false);
    assert ParseCurationWindow(input, now) == Ok(window);
    BeginIs(s.store, r, project, window, now);
    var s1 := s.(store := Begun(s.store, r, project, window, now).value);
    assert BeginStep(s.store, s1.store, r, project, window, now);
    BeginIsNext(s, s1, r, project, input, now);
    StepKeepsManifests(s.store, s1.store);
    assert UnderWay(s1.store, r, None);
    PathAppend([s], s, s1);
    var rest := RunCanFinish(s1, r, None);
    PathJoin([s] + [s1], s, rest);
    path := [s] + [s1] + rest[1..];
    var t := path[|path| - 1];
    CompletionIs(t.store, r, now);
    var u := FinishedRunCanComplete(t, r, now);
    PathAppend(path, s, u);
    path := path + [u];
  }

  lemma BeginIsNext(s: System, t: System, r: RunId, project: ProjectId, input: WindowInput, now: Time)
    requires BeginRun(s, t, r, project, input, now)
    ensures Next(s, t)
  {
  }

  // ----- What a client of the snapshot gets -----

  /** The memory is to be curated: of the project, active, and created in the window. */
  ghost predicate Due(m: Memories, project: ProjectId, window: Window, id: MemoryId) {
    && id in m && m[id].project == project && m[id].status == Active
    && (window.from.Some? ==> window.from.value <= m[id].createdAt) && m[id].createdAt < window.to
  }

  /**
    The pages followed from the start hold each memory that is due, once, under its creation time, in the order of
    creation times and then ids, and no other.
   */
  lemma PagesHoldTheDue(m: Memories, project: ProjectId, window: Window)
    requires FollowPages(m, project, window, None).Ok?
    ensures var all := Concat(FollowPages(m, project, window, None).value);
            && (forall id :: Due(m, project, window, id) <==> exists i :: 0 <= i < |all| && all[i].id == id)
            && (forall i :: 0 <= i < |all| ==> all[i].id in m && all[i].createdAt == m[all[i].id].createdAt)
            && forall i, j :: 0 <= i < j < |all|
                 ==> all[i].createdAt < all[j].createdAt
                     || (all[i].createdAt == all[j].createdAt && all[i].id < all[j].id)
  {
    hide FollowPages, ActiveOf, Sorted, Rows;
    var all := Concat(FollowPages(m, project, window, None).value);
    PagesCoverExactly(m, project, window, None);
    ActiveOfElements(m, Sorted(Rows(m, project, window, None)));
    forall id | Due(m, project, window, id) ensures exists i :: 0 <= i < |all| && all[i].id == id {
      DueIsActiveRow(m, project, window, Key(m[id].createdAt, id));
      var i :| 0 <= i < |all| && all[i] == Key(m[id].createdAt, id);
    }
    forall i | 0 <= i < |all|
      ensures Due(m, project, window, all[i].id) && all[i].createdAt == m[all[i].id].createdAt
    {
      DueIsActiveRow(m, project, window, all[i]);
    }
  }

  lemma DueIsActiveRow(m: Memories, project: ProjectId, window: Window, k: Key)
    ensures k in ActiveOf(m, Sorted(Rows(m, project, window, None)))
            <==> Due(m, project, window, k.id) && k.createdAt == m[k.id].createdAt
  {
    var rows := Rows(m, project, window, None);
    ActiveOfElements(m, Sorted(rows));
    assert k in Sorted(rows) <==> k in Elements(Sorted(rows));
    assert k in rows <==> k.id in m && k == KeyOf(m, k.id) && m[k.id].project == project
                          && m[k.id].status != Forgotten && window.Contains(m[k.id].createdAt);
  }

  lemma FitsIs(m: Memories, k: Key)
    requires k.id in m
    ensures Fits(m, k) <==> m[k.id].size + 2 <= 262_144
  {
    assert SumSizes(m, [k]) == m[k.id].size + SumSizes(m, []) by { assert [k][1..] == []; }
  }

  /** Following the pages succeeds exactly if each memory that is due fits in the page's bytes, alone in an array. */
  lemma PagesSucceedIff(m: Memories, project: ProjectId, window: Window)
    ensures FollowPages(m, project, window, None).Ok?
            <==> forall id :: Due(m, project, window, id) ==> m[id].size + 2 <= 262_144
  {
    hide FollowPages, ActiveOf, Sorted, Rows, Fits;
    PagingSucceedsIff(m, project, window, None);
    forall k
      ensures k in ActiveOf(m, Sorted(Rows(m, project, window, None)))
              <==> Due(m, project, window, k.id) && k.createdAt == m[k.id].createdAt
    {
      DueIsActiveRow(m, project, window, k);
    }
    forall id | Due(m, project, window, id)
      ensures var k := Key(m[id].createdAt, id); Fits(m, k) <==> m[id].size + 2 <= 262_144
    {
      FitsIs(m, Key(m[id].createdAt, id));
    }
  }
}
