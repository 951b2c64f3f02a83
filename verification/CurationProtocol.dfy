/**
  The curation service as a transition system: clock ticks, saves and archivals of memories, page
  computations and store transactions of any number of runs, in any order. The end-to-end theorem says
  that the cursor of a project never passes a memory that was not listed and given an outcome.
 */
module CurationProtocol {
  import opened Base
  import opened CurationStore
  import opened CurationInvariants
  import opened CurationListing

  // ---------------------------------------------------------------------------------------------
  // Windows come from requests
  // ---------------------------------------------------------------------------------------------

  const DAY_MS: int := 24 * 60 * 60 * 1000

  /** A `YYYY-MM-DD` argument: a day of the UTC calendar, or a text that is none. */
  datatype DateText = Day(n: int) | NotADate

  datatype WindowInput = WindowInput(mode: Mode, dryRun: bool, fromDate: Option<DateText>, toDate: Option<DateText>)

  datatype WindowError = DatesNotPaired | ScheduleWithDates | BadDate | DatesNotAscending

  function ParseCurationWindow(input: WindowInput, now: Time): Result<Window, WindowError> {
    if input.fromDate.Some? != input.toDate.Some? then Err(DatesNotPaired)
    else if input.mode == Schedule && (input.fromDate.Some? || input.toDate.Some?) then Err(ScheduleWithDates)
    else if input.fromDate.None? then Ok(Window(None, now, input.mode, input.dryRun))
    else if input.fromDate.value.NotADate? || input.toDate.value.NotADate? then Err(BadDate)
    else
      var from, to := input.fromDate.value.n * DAY_MS, input.toDate.value.n * DAY_MS;
      if from >= to then Err(DatesNotAscending) else Ok(Window(Some(from), to, input.mode, input.dryRun))
  }

  /** A parsed window is never empty; a scheduled one ends now and leaves its start to the cursor. */
  lemma ParsedWindow(input: WindowInput, now: Time)
    requires ParseCurationWindow(input, now).Ok?
    ensures var w := ParseCurationWindow(input, now).value;
            && w.NonEmpty() && w.mode == input.mode && w.dryRun == input.dryRun
            && (w.mode == Schedule ==> w.from.None? && w.to == now)
  {
  }

  // ---------------------------------------------------------------------------------------------
  // Page computations
  // ---------------------------------------------------------------------------------------------

  /** Deferred pages hand over to the window stage without a key; window pages carry one or are last. */
  predicate IsWindowPage(page: Page) {
    page.nextAfter.None? || (page.nextAfter.value.WindowAfter? && page.nextAfter.value.key.Some?)
  }

  function Start(page: Page): Option<Key> {
    if page.after.Some? && page.after.value.WindowAfter? then page.after.value.key else None
  }

  function End(page: Page): Option<Key> {
    if page.nextAfter.Some? && page.nextAfter.value.WindowAfter? then page.nextAfter.value.key else None
  }

  predicate InRange(k: Key, page: Page) {
    After(Start(page), k) && (End(page).None? || k == End(page).value || Less(k, End(page).value))
  }

  /** The deferred stage lists remembered candidates; which ones is left open here. */
  predicate DeferredContent(page: Page) {
    !page.snapshotComplete && page.nextAfter.Some? && !IsWindowPage(page)
      && (page.after.None? || page.after.value.DeferredAfter?)
  }

  ghost predicate WindowContent(m: Memories, run: Run, page: Page) {
    && (page.after.None? || page.after.value.WindowAfter?)
    && exists limit :: WindowListing(m, run, page, limit)
  }

  ghost predicate WindowListing(m: Memories, run: Run, page: Page, limit: int) {
    var listing := ListCurationMemories(m, run.project, run.window, Start(page), limit);
    && |page.items| == |listing.items|
    && (forall i :: 0 <= i < |page.items| ==> page.items[i].memoryId == listing.items[i].id)
    && page.snapshotComplete == listing.nextAfter.None?
    && page.nextAfter == if listing.nextAfter.None? then None else Some(WindowAfter(listing.nextAfter))
  }

  /** `sourceSnapshot` up to its `savePage`: the first page, or the successor of a saved page. */
  ghost predicate Computed(m: Memories, s: Store, r: RunId, page: Page) {
    && r in s.runs
    && Continues(s, r, page)
    && (page.index > 0 ==> page.after.Some?)
    && (DeferredContent(page) || WindowContent(m, s.runs[r], page))
  }

  // ---------------------------------------------------------------------------------------------
  // The system
  // ---------------------------------------------------------------------------------------------

  /** `drafts` are pages computed by some call that has not saved them yet; they may be saved any time later. */
  datatype System = System(clock: Time, memories: Memories, store: Store, drafts: set<(RunId, Page)>)

  ghost predicate Tick(s: System, t: System) {
    t == s.(clock := t.clock) && s.clock <= t.clock
  }

  /** A save reads the clock and inserts the row, in cloud mode some time later. */
  ghost predicate SaveMemory(s: System, t: System, id: MemoryId, memory: Memory) {
    id !in s.memories && memory.createdAt <= s.clock && memory.status == Active
      && t == s.(memories := s.memories[id := memory])
  }

  /** Updates, archivals, restores and `forget`: creation time and project never change. */
  ghost predicate ChangeMemory(s: System, t: System, id: MemoryId, memory: Memory) {
    && id in s.memories && s.memories[id].status != Forgotten
    && memory.createdAt == s.memories[id].createdAt && memory.project == s.memories[id].project
    && t == s.(memories := s.memories[id := memory])
  }

  ghost predicate ComputePage(s: System, t: System, r: RunId, page: Page) {
    Computed(s.memories, s.store, r, page) && t == s.(drafts := s.drafts + {(r, page)})
  }

  /** The service reads the clock once, before the transaction. */
  ghost predicate BeginRun(s: System, t: System, r: RunId, project: ProjectId, input: WindowInput, now: Time) {
    && now <= s.clock && ParseCurationWindow(input, now).Ok?
    && BeginStep(s.store, t.store, r, project, ParseCurationWindow(input, now).value, now)
    && t == s.(store := t.store)
  }

  ghost predicate SaveDraft(s: System, t: System, r: RunId, page: Page) {
    (r, page) in s.drafts && SaveStep(s.store, t.store, r, page) && t == s.(store := t.store)
  }

  ghost predicate RecordOutcomes(s: System, t: System, r: RunId, i: nat, outcomes: seq<Outcome>) {
    RecordStep(s.store, t.store, r, i, outcomes) && t == s.(store := t.store)
  }

  ghost predicate CompleteRun(s: System, t: System, r: RunId, now: Time) {
    CompleteStep(s.store, t.store, r, now) && t == s.(store := t.store)
  }

  ghost predicate Next(s: System, t: System) {
    || Tick(s, t)
    || (exists id, memory :: SaveMemory(s, t, id, memory))
    || (exists id, memory :: ChangeMemory(s, t, id, memory))
    || (exists r, page :: ComputePage(s, t, r, page))
    || (exists r, project, input, now :: BeginRun(s, t, r, project, input, now))
    || (exists r, page :: SaveDraft(s, t, r, page))
    || (exists r, i, outcomes :: RecordOutcomes(s, t, r, i, outcomes))
    || (exists r, now :: CompleteRun(s, t, r, now))
  }

  ghost predicate Init(s: System) {
    && s.store == Store(map[], map[], map[]) && s.drafts == {}
    && forall id :: id in s.memories ==> s.memories[id].createdAt <= s.clock
  }

  ghost predicate IsTrace(tr: seq<System>) {
    |tr| > 0 && Init(tr[0]) && forall i :: 0 <= i < |tr| - 1 ==> Next(tr[i], tr[i + 1])
  }

  /** Local mode inserts the row without giving up control after reading the clock. */
  ghost predicate Prompt(s: System, t: System) {
    forall id :: id in t.memories && id !in s.memories ==> t.memories[id].createdAt == s.clock
  }

  ghost predicate PromptTrace(tr: seq<System>) {
    forall i :: 0 <= i < |tr| - 1 ==> Prompt(tr[i], tr[i + 1])
  }

  // ---------------------------------------------------------------------------------------------
  // The invariant
  // ---------------------------------------------------------------------------------------------

  ghost function InactiveNow(s: System): set<MemoryId> {
    set id | id in s.memories && s.memories[id].status != Active
  }

  ghost predicate InScope(m: Memories, run: Run, id: MemoryId) {
    id in m && m[id].project == run.project && run.window.Contains(m[id].createdAt)
  }

  /**
    What a page says about the memories, `lapsed` being those that were inactive at some time or inserted too late:
    every listed memory lies in the page's key range, and a scheduled page lists every steady one there.
   */
  ghost predicate PageOk(m: Memories, lapsed: set<MemoryId>, run: Run, page: Page) {
    && (page.snapshotComplete <==> page.nextAfter.None?)
    && (IsWindowPage(page) ==>
          && (page.after.None? || page.after.value.WindowAfter?)
          && (Start(page).Some? && End(page).Some? ==> Less(Start(page).value, End(page).value))
          && (forall i :: 0 <= i < |page.items| ==>
                InScope(m, run, page.items[i].memoryId) && InRange(KeyOf(m, page.items[i].memoryId), page))
          && (run.window.mode == Schedule ==>
                forall id :: InScope(m, run, id) && id !in lapsed && InRange(KeyOf(m, id), page)
                  ==> id in ItemIds(page.items)))
    && (!IsWindowPage(page) ==> page.after.None? || page.after.value.DeferredAfter?)
  }

  /** A scheduled window ends at a past clock reading. */
  ghost predicate EndsByNow(s: System, r: RunId)
    requires r in s.store.runs
  {
    s.store.runs[r].window.mode == Schedule ==> s.store.runs[r].window.to <= s.clock
  }

  /** The memories that a step inserts into the window of a run that has begun. */
  ghost function LateFor(s: System, t: System, r: RunId): set<MemoryId> {
    if r in s.store.runs then set id | id in t.memories && id !in s.memories
                           && t.memories[id].createdAt < s.store.runs[r].window.to
    else {}
  }

  /** What holds of the system, with the pages of one run in view. */
  ghost predicate Inv(s: System, lapsed: set<MemoryId>, r: RunId) {
    && InactiveNow(s) <= lapsed
    && ManifestsOk(s.store) && TilingOk(s.store)
    && (forall id :: id in s.memories ==> s.memories[id].createdAt <= s.clock)
    && (forall q :: q in s.store.runs ==> EndsByNow(s, q))
    && (forall d :: d in s.drafts ==> d.0 in s.store.runs)
    && (forall k :: k in s.store.pages ==> k.0 in s.store.runs)
    && PagesOk(s, lapsed, r)
  }

  ghost predicate PagesOk(s: System, lapsed: set<MemoryId>, r: RunId) {
    r in s.store.runs ==>
      && (forall page :: (r, page) in s.drafts ==> PageOk(s.memories, lapsed, s.store.runs[r], page))
      && (forall i: nat :: (r, i) in s.store.pages
            ==> PageOk(s.memories, lapsed, s.store.runs[r], s.store.pages[(r, i)].page))
  }

  /** The active rows of a cut listing, element by element. */
  lemma CutElements(m: Memories, all: seq<Key>, n: nat)
    requires Ascending(all) && n >= 1
    ensures var cut := if |all| > n then all[..n] else all;
            forall k :: k in ActiveOf(m, cut)
              <==> k in all && IsActive(m, k) && (|all| <= n || k == all[n - 1] || Less(k, all[n - 1]))
  {
    ActiveOfElements(m, all);
    if |all| > n {
      ActiveOfElements(m, all[..n]);
      HeadElements(all, n);
    }
  }

  /** Reading a listing off the memories, element by element. */
  lemma ListingElements(m: Memories, project: ProjectId, window: Window, after: Option<Key>, limit: int)
    ensures var listing := ListCurationMemories(m, project, window, after, limit);
            var rows := Rows(m, project, window, after);
            && (listing.nextAfter.Some? ==> listing.nextAfter.value in rows)
            && forall k :: k in listing.items <==>
              (k in rows && IsActive(m, k)
               && (listing.nextAfter.None? || k == listing.nextAfter.value || Less(k, listing.nextAfter.value)))
  {
    var rows := Rows(m, project, window, after);
    var all := Sorted(rows);
    CutElements(m, all, Bounded(limit));
    assert forall k :: k in all <==> k in Elements(all);
  }

  lemma HeadElements(all: seq<Key>, n: nat)
    requires Ascending(all) && 1 <= n <= |all|
    ensures forall k :: k in all[..n] <==> k in all && (k == all[n - 1] || Less(k, all[n - 1]))
  {
    forall k | k in all && (k == all[n - 1] || Less(k, all[n - 1])) ensures k in all[..n] {
      var i :| 0 <= i < |all| && all[i] == k;
      assert i < n;
      assert all[..n][i] == k;
    }
    forall k | k in all[..n] ensures k in all && (k == all[n - 1] || Less(k, all[n - 1])) {
      var i :| 0 <= i < n && all[..n][i] == k;
      assert all[i] == k;
    }
  }

  /** A freshly computed page tells the truth. */
  lemma ComputedPageOk(m: Memories, lapsed: set<MemoryId>, s: Store, r: RunId, page: Page)
    requires Computed(m, s, r, page)
    requires forall id :: id in m && m[id].status != Active ==> id in lapsed
    ensures PageOk(m, lapsed, s.runs[r], page)
  {
    var run := s.runs[r];
    if !DeferredContent(page) {
      var limit :| WindowListing(m, run, page, limit);
      var listing := ListCurationMemories(m, run.project, run.window, Start(page), limit);
      ListingElements(m, run.project, run.window, Start(page), limit);
      assert IsWindowPage(page) && End(page) == listing.nextAfter;
      forall i | 0 <= i < |page.items|
        ensures InScope(m, run, page.items[i].memoryId) && InRange(KeyOf(m, page.items[i].memoryId), page)
      {
        assert listing.items[i] in listing.items;
      }
      forall id | InScope(m, run, id) && id !in lapsed && InRange(KeyOf(m, id), page)
        ensures id in ItemIds(page.items)
      {
        assert KeyOf(m, id) in Rows(m, run.project, run.window, Start(page));
        assert KeyOf(m, id) in listing.items;
        var i :| 0 <= i < |listing.items| && listing.items[i] == KeyOf(m, id);
        assert ItemIds(page.items)[i] == id;
      }
    }
  }

  /**
    A window page lists, of the memories there when it is computed, exactly the active ones of its window and key
    range.
   */
  lemma ComputedPageListsIff(m: Memories, s: Store, r: RunId, page: Page, id: MemoryId)
    requires Computed(m, s, r, page) && IsWindowPage(page)
    ensures id in ItemIds(page.items)
            <==> InScope(m, s.runs[r], id) && m[id].status == Active && InRange(KeyOf(m, id), page)
  {
    var run := s.runs[r];
    var limit :| WindowListing(m, run, page, limit);
    var listing := ListCurationMemories(m, run.project, run.window, Start(page), limit);
    ListingElements(m, run.project, run.window, Start(page), limit);
    assert End(page) == listing.nextAfter;
    if id in ItemIds(page.items) {
      var i :| 0 <= i < |page.items| && ItemIds(page.items)[i] == id;
      assert listing.items[i] in listing.items && listing.items[i].id == id;
    }
    if InScope(m, run, id) && m[id].status == Active && InRange(KeyOf(m, id), page) {
      assert KeyOf(m, id) in Rows(m, run.project, run.window, Start(page));
      var i :| 0 <= i < |listing.items| && listing.items[i] == KeyOf(m, id);
      assert ItemIds(page.items)[i] == id;
    }
  }

  /** What a page says stays true while memories change status and are saved later than its window, or else excused. */
  lemma PageStaysOk(m: Memories, n: Memories, lapsed: set<MemoryId>, lapsed': set<MemoryId>, run: Run, run': Run,
                    page: Page)
    requires PageOk(m, lapsed, run, page) && lapsed <= lapsed' && run'.window == run.window
    requires run'.project == run.project
    requires forall id :: id in m ==> id in n && n[id].createdAt == m[id].createdAt && n[id].project == m[id].project
    requires forall id :: id in n && id !in m ==> run.window.to <= n[id].createdAt || id in lapsed'
    ensures PageOk(n, lapsed', run', page)
  {
    forall i | IsWindowPage(page) && 0 <= i < |page.items|
      ensures InScope(n, run', page.items[i].memoryId) && InRange(KeyOf(n, page.items[i].memoryId), page)
    {
      assert InScope(m, run, page.items[i].memoryId);
    }
    forall id | IsWindowPage(page) && run.window.mode == Schedule && InScope(n, run', id) && id !in lapsed'
      && InRange(KeyOf(n, id), page)
      ensures id in ItemIds(page.items)
    {
      assert InScope(m, run, id);
    }
  }

  /** Creation time and project of a memory are fixed. */
  ghost predicate MemoriesGrow(s: System, t: System) {
    && (forall id :: id in s.memories ==> SameOrigin(s.memories, t.memories, id))
    && (forall id :: id in t.memories && id !in s.memories ==> t.memories[id].createdAt <= s.clock)
  }

  ghost predicate SameOrigin(m: Memories, n: Memories, id: MemoryId)
    requires id in m
  {
    id in n && n[id].createdAt == m[id].createdAt && n[id].project == m[id].project
  }

  /** Steps that leave the store and the drafts alone. */
  lemma MemoryStepKeepsInv(s: System, t: System, lapsed: set<MemoryId>, r: RunId)
    requires Inv(s, lapsed, r) && t.store == s.store && t.drafts == s.drafts && s.clock <= t.clock && MemoriesGrow(s, t)
    ensures Inv(t, lapsed + InactiveNow(t) + LateFor(s, t, r), r)
  {
    var lapsed' := lapsed + InactiveNow(t) + LateFor(s, t, r);
    if r in s.store.runs {
      var run := s.store.runs[r];
      forall page | (r, page) in t.drafts ensures PageOk(t.memories, lapsed', run, page) {
        PageStaysOk(s.memories, t.memories, lapsed, lapsed', run, run, page);
      }
      forall i: nat | (r, i) in t.store.pages ensures PageOk(t.memories, lapsed', run, t.store.pages[(r, i)].page) {
        PageStaysOk(s.memories, t.memories, lapsed, lapsed', run, run, s.store.pages[(r, i)].page);
      }
    }
    forall q | q in t.store.runs ensures EndsByNow(t, q) { assert EndsByNow(s, q); }
  }

  /** Runs keep their project and window, and saved pages come from the drafts. */
  ghost predicate StoreGrows(s: System, t: System) {
    && t == s.(store := t.store) && StoreStep(s.store, t.store)
    && (forall r :: r in s.store.runs ==> SameScope(s.store, t.store, r))
    && (forall r :: r in t.store.runs && r !in s.store.runs ==> EndsByNow(t, r))
    && (forall k :: k in t.store.pages ==> KeptOrDraft(s, t, k))
  }

  ghost predicate SameScope(s: Store, t: Store, r: RunId)
    requires r in s.runs
  {
    r in t.runs && t.runs[r].window == s.runs[r].window && t.runs[r].project == s.runs[r].project
  }

  ghost predicate KeptOrDraft(s: System, t: System, k: (RunId, nat))
    requires k in t.store.pages
  {
    (k in s.store.pages && t.store.pages[k].page == s.store.pages[k].page) || (k.0, t.store.pages[k].page) in s.drafts
  }

  lemma StorePagesStayOk(s: System, t: System, lapsed: set<MemoryId>, r: RunId)
    requires Inv(s, lapsed, r) && StoreGrows(s, t)
    ensures PagesOk(t, lapsed, r)
    ensures forall d :: d in t.drafts ==> d.0 in t.store.runs
    ensures forall k :: k in t.store.pages ==> k.0 in t.store.runs
  {
    forall d | d in t.drafts ensures d.0 in t.store.runs { assert SameScope(s.store, t.store, d.0); }
    forall k | k in t.store.pages ensures k.0 in s.store.runs && k.0 in t.store.runs {
      assert KeptOrDraft(s, t, k);
      assert SameScope(s.store, t.store, k.0);
    }
    if r in s.store.runs {
      assert SameScope(s.store, t.store, r);
      forall page | (r, page) in t.drafts ensures PageOk(t.memories, lapsed, t.store.runs[r], page) {
        PageStaysOk(s.memories, t.memories, lapsed, lapsed, s.store.runs[r], t.store.runs[r], page);
      }
      forall i: nat | (r, i) in t.store.pages
        ensures PageOk(t.memories, lapsed, t.store.runs[r], t.store.pages[(r, i)].page)
      {
        assert KeptOrDraft(s, t, (r, i));
        PageStaysOk(s.memories, t.memories, lapsed, lapsed, s.store.runs[r], t.store.runs[r],
                    t.store.pages[(r, i)].page);
      }
    }
  }

  lemma StoreStepKeepsInv(s: System, t: System, lapsed: set<MemoryId>, r: RunId)
    requires Inv(s, lapsed, r) && StoreGrows(s, t)
    ensures Inv(t, lapsed, r)
  {
    StepKeepsManifests(s.store, t.store);
    StepKeepsTiling(s.store, t.store);
    StorePagesStayOk(s, t, lapsed, r);
    forall q | q in t.store.runs ensures EndsByNow(t, q) {
      if q in s.store.runs { assert SameScope(s.store, t.store, q) && EndsByNow(s, q); }
    }
  }

  lemma ComputeKeepsInv(s: System, t: System, lapsed: set<MemoryId>, r: RunId, page: Page, q: RunId)
    requires Inv(s, lapsed, q) && ComputePage(s, t, r, page)
    ensures Inv(t, lapsed, q)
  {
    ComputedPageOk(s.memories, lapsed, s.store, r, page);
  }

  lemma BeginGrows(s: System, t: System, r: RunId, project: ProjectId, input: WindowInput, now: Time)
    requires BeginRun(s, t, r, project, input, now)
    ensures StoreGrows(s, t)
  {
    assert BeginStep(s.store, t.store, r, project, ParseCurationWindow(input, now).value, now);
  }

  lemma SaveGrows(s: System, t: System, r: RunId, page: Page)
    requires SaveDraft(s, t, r, page)
    ensures StoreGrows(s, t)
  {
    assert SaveStep(s.store, t.store, r, page);
  }

  lemma RecordGrows(s: System, t: System, r: RunId, i: nat, outcomes: seq<Outcome>)
    requires RecordOutcomes(s, t, r, i, outcomes)
    ensures StoreGrows(s, t)
  {
    assert RecordStep(s.store, t.store, r, i, outcomes);
  }

  lemma CompleteGrows(s: System, t: System, r: RunId, now: Time)
    requires CompleteRun(s, t, r, now)
    ensures StoreGrows(s, t)
  {
    assert CompleteStep(s.store, t.store, r, now);
  }

  ghost predicate StoreTransaction(s: System, t: System) {
    || (exists r, project, input, now :: BeginRun(s, t, r, project, input, now))
    || (exists r, page :: SaveDraft(s, t, r, page))
    || (exists r, i, outcomes :: RecordOutcomes(s, t, r, i, outcomes))
    || (exists r, now :: CompleteRun(s, t, r, now))
  }

  lemma TransactionGrows(s: System, t: System)
    requires StoreTransaction(s, t)
    ensures StoreGrows(s, t)
  {
    if r, project, input, now :| BeginRun(s, t, r, project, input, now) { BeginGrows(s, t, r, project, input, now); }
    else if r, page :| SaveDraft(s, t, r, page) { SaveGrows(s, t, r, page); }
    else if r, i, outcomes :| RecordOutcomes(s, t, r, i, outcomes) { RecordGrows(s, t, r, i, outcomes); }
    else if r, now :| CompleteRun(s, t, r, now) { CompleteGrows(s, t, r, now); }
  }

  lemma StepKeepsInv(s: System, t: System, lapsed: set<MemoryId>, q: RunId)
    requires Inv(s, lapsed, q) && Next(s, t)
    ensures Inv(t, lapsed + InactiveNow(t) + LateFor(s, t, q), q)
  {
    if StoreTransaction(s, t) {
      TransactionGrows(s, t);
      StoreStepKeepsInv(s, t, lapsed, q);
      assert lapsed + InactiveNow(t) + LateFor(s, t, q) == lapsed;
    } else if r, page :| ComputePage(s, t, r, page) {
      ComputeKeepsInv(s, t, lapsed, r, page, q);
      assert lapsed + InactiveNow(t) + LateFor(s, t, q) == lapsed;
    } else {
      MemoryStepKeepsInv(s, t, lapsed, q);
    }
  }

  // ---------------------------------------------------------------------------------------------
  // One page per memory
  // ---------------------------------------------------------------------------------------------

  ghost predicate PagesOf(s: System, lapsed: set<MemoryId>, r: RunId) {
    && r in s.store.runs && ManifestOk(s.store, r)
    && forall i: nat :: i < s.store.runs[r].pageCount
         ==> PageOk(s.memories, lapsed, s.store.runs[r], s.store.pages[(r, i)].page)
  }

  function PageAt(s: Store, r: RunId, i: nat): Page
    requires (r, i) in s.pages
  {
    s.pages[(r, i)].page
  }

  /** Window pages follow each other without gap; the deferred stage, if any, comes first. */
  lemma NeighbourPages(s: System, lapsed: set<MemoryId>, r: RunId, i: nat)
    requires PagesOf(s, lapsed, r) && 0 < i < s.store.runs[r].pageCount && IsWindowPage(PageAt(s.store, r, i))
    ensures var p, q := PageAt(s.store, r, i - 1), PageAt(s.store, r, i);
            if IsWindowPage(p) then End(p).Some? && Start(q) == End(p) else Start(q).None?
  {
    assert RowOk(s.store, r, i) && RowOk(s.store, r, i - 1);
  }

  /** Every key up to the end of a window page lies in the range of a window page so far. */
  lemma {:induction false} SomePageInRange(s: System, lapsed: set<MemoryId>, r: RunId, n: nat, k: Key) returns (i: nat)
    requires PagesOf(s, lapsed, r) && 1 <= n <= s.store.runs[r].pageCount
    requires var last := PageAt(s.store, r, n - 1);
             IsWindowPage(last) && (End(last).None? || k == End(last).value || Less(k, End(last).value))
    ensures i < n && IsWindowPage(PageAt(s.store, r, i)) && InRange(k, PageAt(s.store, r, i))
  {
    if n == 1 {
      assert RowOk(s.store, r, 0);
      return 0;
    }
    if InRange(k, PageAt(s.store, r, n - 1)) { return n - 1; }
    NeighbourPages(s, lapsed, r, n - 1);
    i := SomePageInRange(s, lapsed, r, n - 1, k);
  }

  /** Later window pages start at or behind the end of earlier ones. */
  lemma {:induction false} RangesAscend(s: System, lapsed: set<MemoryId>, r: RunId, i: nat, j: nat)
    requires PagesOf(s, lapsed, r) && i < j < s.store.runs[r].pageCount && IsWindowPage(PageAt(s.store, r, i))
    ensures IsWindowPage(PageAt(s.store, r, j)) && End(PageAt(s.store, r, i)).Some?
    ensures Start(PageAt(s.store, r, j)).Some?
    ensures var e, b := End(PageAt(s.store, r, i)).value, Start(PageAt(s.store, r, j)).value; e == b || Less(e, b)
  {
    if i + 1 < j { RangesAscend(s, lapsed, r, i, j - 1); }
    assert RowOk(s.store, r, j) && RowOk(s.store, r, j - 1);
    assert PageOk(s.memories, lapsed, s.store.runs[r], PageAt(s.store, r, j));
    assert PageOk(s.memories, lapsed, s.store.runs[r], PageAt(s.store, r, j - 1));
    NeighbourPages(s, lapsed, r, j);
  }

  /** The page is a window-stage page of the run and lists the memory. */
  ghost predicate Lists(s: Store, r: RunId, i: nat, id: MemoryId) {
    (r, i) in s.pages && IsWindowPage(PageAt(s, r, i)) && id in ItemIds(PageAt(s, r, i).items)
  }

  /** The page is the window page of the run whose range holds the key. */
  ghost predicate HoldsKey(s: Store, r: RunId, i: nat, k: Key) {
    (r, i) in s.pages && IsWindowPage(PageAt(s, r, i)) && InRange(k, PageAt(s, r, i))
  }

  /** The ranges of two window pages of a run have no key in common. */
  lemma RangesApart(s: System, lapsed: set<MemoryId>, r: RunId, i: nat, j: nat, k: Key)
    requires PagesOf(s, lapsed, r) && HoldsKey(s.store, r, i, k) && HoldsKey(s.store, r, j, k)
    ensures i == j
  {
    assert forall n: nat :: (r, n) in s.store.pages ==> n < s.store.runs[r].pageCount;
    if i < j {
      RangesAscend(s, lapsed, r, i, j);
    } else if j < i {
      RangesAscend(s, lapsed, r, j, i);
    }
  }

  /** A window page that lists a memory holds its key. */
  lemma ListsInRange(s: System, lapsed: set<MemoryId>, r: RunId, i: nat, id: MemoryId)
    requires PagesOf(s, lapsed, r) && Lists(s.store, r, i, id)
    ensures id in s.memories && HoldsKey(s.store, r, i, KeyOf(s.memories, id))
  {
    assert i < s.store.runs[r].pageCount;
    assert PageOk(s.memories, lapsed, s.store.runs[r], PageAt(s.store, r, i));
    var n :| 0 <= n < |PageAt(s.store, r, i).items| && ItemIds(PageAt(s.store, r, i).items)[n] == id;
  }

  /** No two window pages of a run list the same memory. */
  lemma ListedOnce(s: System, lapsed: set<MemoryId>, r: RunId, i: nat, j: nat, id: MemoryId)
    requires PagesOf(s, lapsed, r) && Lists(s.store, r, i, id) && Lists(s.store, r, j, id)
    ensures i == j
  {
    hide PagesOf, Lists, HoldsKey;
    ListsInRange(s, lapsed, r, i, id);
    ListsInRange(s, lapsed, r, j, id);
    RangesApart(s, lapsed, r, i, j, KeyOf(s.memories, id));
  }

  /** A scheduled run whose snapshot is complete has listed every steady memory of its window. */
  lemma SteadyMemoryIsListed(s: System, lapsed: set<MemoryId>, r: RunId, id: MemoryId) returns (i: nat)
    requires PagesOf(s, lapsed, r) && s.store.runs[r].window.mode == Schedule && s.store.runs[r].snapshotComplete
    requires InScope(s.memories, s.store.runs[r], id) && id !in lapsed
    ensures Lists(s.store, r, i, id) && i < s.store.runs[r].pageCount
  {
    var n := s.store.runs[r].pageCount;
    assert PageOk(s.memories, lapsed, s.store.runs[r], PageAt(s.store, r, n - 1));
    i := SomePageInRange(s, lapsed, r, n, KeyOf(s.memories, id));
    assert PageOk(s.memories, lapsed, s.store.runs[r], PageAt(s.store, r, i));
  }

  // ---------------------------------------------------------------------------------------------
  // Whole runs of the system
  // ---------------------------------------------------------------------------------------------

  /**
    The memories that up to the n-th state were inactive once, or were inserted into the window of the run after it
    began.
   */
  ghost function Lapsed(tr: seq<System>, n: nat, r: RunId): set<MemoryId>
    requires n < |tr|
  {
    if n == 0 then InactiveNow(tr[0]) else Lapsed(tr, n - 1, r) + InactiveNow(tr[n]) + LateFor(tr[n - 1], tr[n], r)
  }

  lemma {:induction false} InvAlways(tr: seq<System>, n: nat, r: RunId)
    requires IsTrace(tr) && n < |tr|
    ensures Inv(tr[n], Lapsed(tr, n, r), r)
  {
    hide Init, Next, Inv, InactiveNow, LateFor;
    if n == 0 {
      InvAtFirst(tr[0], r);
    } else {
      InvAlways(tr, n - 1, r);
      TraceStep(tr, n);
      StepKeepsInv(tr[n - 1], tr[n], Lapsed(tr, n - 1, r), r);
    }
  }

  lemma InvAtFirst(s: System, r: RunId)
    requires Init(s)
    ensures Inv(s, InactiveNow(s), r)
  {
  }

  /** Active in every state from its creation up to the n-th. */
  ghost predicate SteadyUntil(tr: seq<System>, id: MemoryId, n: nat)
    requires n < |tr|
  {
    forall i :: 0 <= i <= n && id in tr[i].memories ==> tr[i].memories[id].status == Active
  }

  /** The memory was there whenever the run was, up to the j-th state: it was inserted before the run began. */
  ghost predicate ThereFromTheStart(tr: seq<System>, r: RunId, id: MemoryId, j: nat)
    requires j < |tr|
  {
    forall i :: 0 <= i <= j && r in tr[i].store.runs ==> id in tr[i].memories
  }

  lemma {:induction false} SteadyNeverLapsed(tr: seq<System>, r: RunId, id: MemoryId, n: nat)
    requires n < |tr| && SteadyUntil(tr, id, n) && ThereFromTheStart(tr, r, id, n)
    ensures id !in Lapsed(tr, n, r)
  {
    if n > 0 { SteadyNeverLapsed(tr, r, id, n - 1); }
  }

  /** The step from state j to state j+1 completes the run. */
  ghost predicate CompletesAt(tr: seq<System>, r: RunId, j: nat) {
    && j + 1 < |tr|
    && r in tr[j].store.runs && tr[j].store.runs[r].state == Running
    && r in tr[j + 1].store.runs && tr[j + 1].store.runs[r].state == Complete
  }

  lemma {:induction false} FindCompletion(tr: seq<System>, r: RunId, n: nat) returns (j: nat)
    requires IsTrace(tr) && n < |tr| && r in tr[n].store.runs && tr[n].store.runs[r].state == Complete
    ensures j < n && CompletesAt(tr, r, j)
  {
    assert n > 0;
    assert Next(tr[n - 1], tr[n - 1 + 1]);
    if r !in tr[n - 1].store.runs { RunsStart(tr[n - 1], tr[n], r); }
    if tr[n - 1].store.runs[r].state == Complete {
      j := FindCompletion(tr, r, n - 1);
    } else {
      j := n - 1;
    }
  }

  /** Whatever the system does to the store is one of its transactions. */
  lemma NextIsStoreStep(s: System, t: System)
    requires Next(s, t)
    ensures t.store == s.store || StoreStep(s.store, t.store)
  {
    hide BeginStep, SaveStep, RecordStep, CompleteStep;
    if StoreTransaction(s, t) { TransactionGrows(s, t); }
  }

  /** A run that a step brings into being is still running. */
  lemma RunsStart(s: System, t: System, r: RunId)
    requires Next(s, t) && r in t.store.runs && r !in s.store.runs
    ensures t.store.runs[r].state == Running
  {
    hide Next, StoreStep;
    NextIsStoreStep(s, t);
    var named := StepNamesOneRun(s.store, t.store);
    assert named == r;
  }

  /** The run and its pages are recorded alike in both stores. */
  ghost predicate SameRecord(s: Store, t: Store, r: RunId) {
    && r in s.runs && r in t.runs && s.runs[r] == t.runs[r]
    && forall i: nat :: SameRow(s, t, r, i)
  }

  ghost predicate SameRow(s: Store, t: Store, r: RunId, i: nat) {
    ((r, i) in s.pages <==> (r, i) in t.pages) && ((r, i) in s.pages ==> s.pages[(r, i)] == t.pages[(r, i)])
  }

  lemma FrozenStep(s: System, t: System, r: RunId)
    requires ManifestsOk(s.store) && Next(s, t) && r in s.store.runs && s.store.runs[r].state == Complete
    ensures SameRecord(s.store, t.store, r)
  {
    hide Next, StoreStep, ManifestsOk;
    NextIsStoreStep(s, t);
    if t.store != s.store {
      CompleteRunIsFrozen(s.store, t.store, r);
      forall i: nat ensures SameRow(s.store, t.store, r, i) {}
    }
  }

  lemma TraceStep(tr: seq<System>, n: nat)
    requires IsTrace(tr) && 0 < n < |tr|
    ensures Next(tr[n - 1], tr[n])
  {
    hide Next, Init;
    assert Next(tr[n - 1], tr[n - 1 + 1]);
  }

  lemma FrozenStepAt(tr: seq<System>, r: RunId, n: nat)
    requires IsTrace(tr) && 0 < n < |tr| && r in tr[n - 1].store.runs && tr[n - 1].store.runs[r].state == Complete
    ensures SameRecord(tr[n - 1].store, tr[n].store, r)
  {
    hide IsTrace, Next, SameRecord, ManifestsOk;
    ManifestsAlways(tr, n - 1);
    TraceStep(tr, n);
    FrozenStep(tr[n - 1], tr[n], r);
  }

  lemma ManifestsAlways(tr: seq<System>, n: nat)
    requires IsTrace(tr) && n < |tr|
    ensures ManifestsOk(tr[n].store)
  {
    InvAlways(tr, n, 0);
  }

  lemma SameRecordTransitive(s: Store, t: Store, u: Store, r: RunId)
    requires SameRecord(s, t, r) && SameRecord(t, u, r)
    ensures SameRecord(s, u, r)
  {
    forall i: nat ensures SameRow(s, u, r, i) { assert SameRow(s, t, r, i) && SameRow(t, u, r, i); }
  }

  /** What was recorded for a run when it completed is what is recorded for it ever after. */
  lemma {:induction false} FrozenAfter(tr: seq<System>, r: RunId, j: nat, n: nat)
    requires IsTrace(tr) && CompletesAt(tr, r, j) && j + 1 <= n < |tr|
    ensures SameRecord(tr[j + 1].store, tr[n].store, r)
  {
    if j + 1 < n {
      FrozenAfter(tr, r, j, n - 1);
      FrozenStepAt(tr, r, n);
      SameRecordTransitive(tr[j + 1].store, tr[n - 1].store, tr[n].store, r);
    }
  }

  /** A completing step is a `complete` transaction of a run whose every page has its outcomes. */
  lemma CompletingStep(s: System, t: System, r: RunId)
    requires Next(s, t) && r in s.store.runs && s.store.runs[r].state == Running && r in t.store.runs
    requires t.store.runs[r].state == Complete
    ensures ReadyToComplete(s.store.runs[r]) && t.store.pages == s.store.pages
    ensures t.store.runs[r].window == s.store.runs[r].window && t.store.runs[r].project == s.store.runs[r].project
    ensures t.store.runs[r].pageCount == s.store.runs[r].pageCount
  {
    var q, now :| CompleteRun(s, t, q, now);
    assert CompleteStep(s.store, t.store, q, now);
  }

  /** A memory created before some earlier clock reading was already there at that reading. */
  lemma {:induction false} WasThere(tr: seq<System>, id: MemoryId, j: nat, n: nat)
    requires IsTrace(tr) && PromptTrace(tr) && j <= n < |tr| && id in tr[n].memories
    requires tr[n].memories[id].createdAt < tr[j].clock
    ensures id in tr[j].memories && tr[j].memories[id].createdAt == tr[n].memories[id].createdAt
            && tr[j].memories[id].project == tr[n].memories[id].project
  {
    if j < n {
      assert Next(tr[n - 1], tr[n - 1 + 1]) && Prompt(tr[n - 1], tr[n - 1 + 1]);
      ClockAscends(tr, j, n - 1);
      WasThere(tr, id, j, n - 1);
    }
  }

  lemma {:induction false} ClockAscends(tr: seq<System>, j: nat, n: nat)
    requires IsTrace(tr) && j <= n < |tr|
    ensures tr[j].clock <= tr[n].clock
  {
    if j < n {
      ClockAscends(tr, j, n - 1);
      assert Next(tr[n - 1], tr[n - 1 + 1]);
    }
  }

  lemma {:induction false} OnceInDistinct(ids: seq<MemoryId>, id: MemoryId)
    requires Distinct(ids)
    ensures multiset(ids)[id] == if id in ids then 1 else 0
  {
    if ids != [] {
      var n := |ids| - 1;
      assert ids == ids[..n] + [ids[n]];
      OnceInDistinct(ids[..n], id);
      assert id in ids <==> id in ids[..n] || id == ids[n];
    }
  }

  /** The page has its outcomes, and exactly one of them is about the memory. */
  ghost predicate HasOutcome(s: Store, r: RunId, i: nat, id: MemoryId)
    requires (r, i) in s.pages
  {
    s.pages[(r, i)].outcomes.Some? && multiset(OutcomeIds(s.pages[(r, i)].outcomes.value))[id] == 1
  }

  lemma ListedHasOutcome(s: Store, r: RunId, i: nat, id: MemoryId)
    requires r in s.runs && ManifestOk(s, r) && s.runs[r].state == Complete && Lists(s, r, i, id)
    ensures HasOutcome(s, r, i, id)
  {
    AllPagesDone(s, r, s.runs[r].pageCount);
    assert RowOk(s, r, i);
    var outcomes := s.pages[(r, i)].outcomes.value;
    OnceInDistinct(OutcomeIds(outcomes), id);
    assert id in multiset(ItemIds(PageAt(s, r, i).items));
  }

  /** Just before its completion the covering run lists every steady memory of its window, once. */
  lemma ListedAtCompletion(tr: seq<System>, r: RunId, j: nat, id: MemoryId) returns (i: nat)
    requires IsTrace(tr) && CompletesAt(tr, r, j) && tr[j].store.runs[r].window.mode == Schedule
    requires InScope(tr[j].memories, tr[j].store.runs[r], id) && SteadyUntil(tr, id, j)
    requires ThereFromTheStart(tr, r, id, j)
    ensures Lists(tr[j].store, r, i, id) && forall k: nat :: Lists(tr[j].store, r, k, id) ==> k == i
  {
    InvAlways(tr, j, r);
    assert Next(tr[j], tr[j + 1]);
    CompletingStep(tr[j], tr[j + 1], r);
    SteadyNeverLapsed(tr, r, id, j);
    i := SteadyMemoryIsListed(tr[j], Lapsed(tr, j, r), r, id);
    forall k: nat | Lists(tr[j].store, r, k, id) ensures k == i {
      ListedOnce(tr[j], Lapsed(tr, j, r), r, k, i, id);
    }
  }

  lemma FrozenLists(s: Store, t: Store, u: Store, r: RunId, id: MemoryId)
    requires t.pages == s.pages && SameRecord(t, u, r)
    ensures forall k: nat :: Lists(u, r, k, id) <==> Lists(s, r, k, id)
  {
    forall k: nat ensures Lists(u, r, k, id) <==> Lists(s, r, k, id) { assert SameRow(t, u, r, k); }
  }

  lemma EndsInThePast(tr: seq<System>, r: RunId, j: nat)
    requires IsTrace(tr) && j < |tr| && r in tr[j].store.runs
    ensures EndsByNow(tr[j], r)
  {
    InvAlways(tr, j, r);
  }

  lemma CompletingStepAt(tr: seq<System>, r: RunId, j: nat)
    requires IsTrace(tr) && CompletesAt(tr, r, j)
    ensures tr[j + 1].store.pages == tr[j].store.pages && tr[j + 1].store.runs[r].window == tr[j].store.runs[r].window
  {
    CompletingStep(tr[j], tr[j + 1], r);
  }

  /** Where a memory comes from does not change. */
  lemma {:induction false} OriginStays(tr: seq<System>, id: MemoryId, j: nat, n: nat)
    requires IsTrace(tr) && j <= n < |tr| && id in tr[j].memories
    ensures SameOrigin(tr[j].memories, tr[n].memories, id)
  {
    if j < n {
      OriginStays(tr, id, j, n - 1);
      assert Next(tr[n - 1], tr[n - 1 + 1]);
    }
  }

  /** The covering run's part of the theorem, with the run and its completion in hand. */
  lemma SteadyMemoryIsAccountedFor(tr: seq<System>, r: RunId, j: nat, id: MemoryId) returns (i: nat)
    requires IsTrace(tr) && CompletesAt(tr, r, j) && tr[j].store.runs[r].window.mode == Schedule
    requires InScope(tr[|tr| - 1].memories, tr[j].store.runs[r], id) && SteadyUntil(tr, id, j)
    requires ThereFromTheStart(tr, r, id, j)
    ensures var s := tr[|tr| - 1].store;
            Lists(s, r, i, id) && HasOutcome(s, r, i, id) && forall k: nat :: Lists(s, r, k, id) ==> k == i
  {
    var n := |tr| - 1;
    assert id in tr[j].memories;
    OriginStays(tr, id, j, n);
    i := ListedAtCompletion(tr, r, j, id);
    CompletingStepAt(tr, r, j);
    FrozenAfter(tr, r, j, n);
    FrozenLists(tr[j].store, tr[j + 1].store, tr[n].store, r, id);
    ManifestsAlways(tr, n);
    ListedHasOutcome(tr[n].store, r, i, id);
  }

  /** The memory is listed by exactly one window page of the run, and that page has exactly one outcome for it. */
  ghost predicate AccountedFor(s: Store, r: RunId, id: MemoryId) {
    exists i: nat :: Lists(s, r, i, id) && HasOutcome(s, r, i, id) && forall k: nat :: Lists(s, r, k, id) ==> k == i
  }

  /**
    The run is the only advanced one whose window covers the instant, and it completed in the step from the j-th state.
   */
  ghost predicate Covers(tr: seq<System>, p: ProjectId, r: RunId, j: nat, t: Time)
    requires |tr| > 0
  {
    var s := tr[|tr| - 1].store;
    && Advanced(s, p, r) && s.runs[r].window.Contains(t) && s.runs[r].window.mode == Schedule
    && (forall q :: Advanced(s, p, q) && s.runs[q].window.Contains(t) ==> q == r)
    && CompletesAt(tr, r, j)
  }

  // ----- When a page was computed -----

  lemma DraftsGrow(s: System, t: System, r: RunId, page: Page)
    requires Next(s, t)
    ensures (r, page) in s.drafts ==> (r, page) in t.drafts
    ensures (r, page) in t.drafts && (r, page) !in s.drafts ==> ComputePage(s, t, r, page)
  {
    hide Computed, BeginStep, SaveStep, RecordStep, CompleteStep, ParseCurationWindow;
    if StoreTransaction(s, t) {
      hide StoreTransaction;
      TransactionGrows(s, t);
    }
  }

  /** Every draft was computed in some step before. */
  lemma {:induction false} DraftWasComputed(tr: seq<System>, n: nat, r: RunId, page: Page) returns (k: nat)
    requires IsTrace(tr) && n < |tr| && (r, page) in tr[n].drafts
    ensures k < n && ComputePage(tr[k], tr[k + 1], r, page)
  {
    hide Next;
    assert n > 0;
    TraceStep(tr, n);
    DraftsGrow(tr[n - 1], tr[n], r, page);
    if (r, page) in tr[n - 1].drafts {
      k := DraftWasComputed(tr, n - 1, r, page);
    } else {
      k := n - 1;
    }
  }

  /** Every saved page is a draft still. */
  lemma {:induction false} PageWasDraft(tr: seq<System>, n: nat, r: RunId, i: nat)
    requires IsTrace(tr) && n < |tr| && (r, i) in tr[n].store.pages
    ensures (r, PageAt(tr[n].store, r, i)) in tr[n].drafts
  {
    hide Next;
    assert n > 0;
    TraceStep(tr, n);
    PageStaysDraft(tr[n - 1], tr[n], r, i);
    if (r, i) in tr[n - 1].store.pages { PageWasDraft(tr, n - 1, r, i); }
  }

  lemma PageStaysDraft(s: System, t: System, r: RunId, i: nat)
    requires Next(s, t) && (r, i) in t.store.pages
    ensures (r, PageAt(t.store, r, i)) in t.drafts
            || ((r, i) in s.store.pages && PageAt(s.store, r, i) == PageAt(t.store, r, i))
    ensures s.drafts <= t.drafts
  {
    hide Computed, BeginStep, SaveStep, RecordStep, CompleteStep, ParseCurationWindow;
    if StoreTransaction(s, t) {
      hide StoreTransaction;
      TransactionGrows(s, t);
      assert KeptOrDraft(s, t, (r, i));
    }
  }

  /** The page of a closed scheduled run that holds the key of a memory of its window. */
  lemma PageOfKey(tr: seq<System>, r: RunId, j: nat, k: Key) returns (i: nat)
    requires IsTrace(tr) && CompletesAt(tr, r, j)
    ensures HoldsKey(tr[j].store, r, i, k) && forall q: nat :: HoldsKey(tr[j].store, r, q, k) ==> q == i
  {
    InvAlways(tr, j, r);
    TraceStep(tr, j + 1);
    CompletingStep(tr[j], tr[j + 1], r);
    var s, lapsed := tr[j], Lapsed(tr, j, r);
    var n := s.store.runs[r].pageCount;
    assert RowOk(s.store, r, n - 1);
    assert PageOk(s.memories, lapsed, s.store.runs[r], PageAt(s.store, r, n - 1));
    i := SomePageInRange(s, lapsed, r, n, k);
    forall q: nat | HoldsKey(s.store, r, q, k) ensures q == i { RangesApart(s, lapsed, r, q, i, k); }
  }

  /**
    What a window page lists is settled whenever it is computed: the steady memories of its range that are there then.
   */
  lemma ListedIffThere(tr: seq<System>, r: RunId, page: Page, k: nat, j: nat, n: nat, id: MemoryId)
    requires IsTrace(tr) && k < j <= n < |tr| && ComputePage(tr[k], tr[k + 1], r, page) && IsWindowPage(page)
    requires r in tr[j].store.runs && id in tr[n].memories && InScope(tr[n].memories, tr[j].store.runs[r], id)
    requires SteadyUntil(tr, id, j) && InRange(KeyOf(tr[n].memories, id), page)
    ensures id in ItemIds(page.items) <==> id in tr[k].memories
  {
    ComputedPageListsIff(tr[k].memories, tr[k].store, r, page, id);
    ScopeStays(tr, r, k, j);
    if id in tr[k].memories { OriginStays(tr, id, k, n); }
  }

  /** The step from the k-th state computes the page. */
  ghost predicate ComputesAt(tr: seq<System>, r: RunId, page: Page, k: nat) {
    k + 1 < |tr| && ComputePage(tr[k], tr[k + 1], r, page)
  }

  /**
    Exactly which memories a completed run accounts for. The key of a memory of its window lies in the range of one
    window page, which was computed in some step before the completion; and if the memory was active whenever it was
    there, the run accounts for it if and only if it was there when that page was computed.
   */
  lemma AccountedForIff(tr: seq<System>, r: RunId, j: nat, id: MemoryId) returns (i: nat)
    requires IsTrace(tr) && CompletesAt(tr, r, j)
    requires InScope(tr[|tr| - 1].memories, tr[j].store.runs[r], id) && SteadyUntil(tr, id, j)
    ensures var s := tr[|tr| - 1];
            && HoldsKey(s.store, r, i, KeyOf(s.memories, id))
            && (forall q: nat :: HoldsKey(s.store, r, q, KeyOf(s.memories, id)) ==> q == i)
            && (exists k: nat :: k < j && ComputesAt(tr, r, PageAt(s.store, r, i), k))
            && forall k: nat :: k < j && ComputesAt(tr, r, PageAt(s.store, r, i), k)
                 ==> (AccountedFor(s.store, r, id) <==> id in tr[k].memories)
  {
    hide IsTrace, PagesOf, HasOutcome, IsWindowPage, InRange, ManifestOk, Inv, SameRecord, ComputePage;
    var n := |tr| - 1;
    var s := tr[n];
    var key := KeyOf(s.memories, id);
    i := PageOfKey(tr, r, j, key);
    CompletingStepAt(tr, r, j);
    FrozenAfter(tr, r, j, n);
    FrozenPages(tr[j].store, tr[j + 1].store, s.store, r, key);
    var page := PageAt(s.store, r, i);
    PageWasDraft(tr, j, r, i);
    var k0 := DraftWasComputed(tr, j, r, page);
    assert ComputesAt(tr, r, page, k0);
    AccountedForIffListed(tr, r, j, id, i);
    forall k: nat | k < j && ComputesAt(tr, r, page, k) ensures AccountedFor(s.store, r, id) <==> id in tr[k].memories {
      ListedIffThere(tr, r, page, k, j, n, id);
    }
  }

  lemma FrozenPages(s: Store, t: Store, u: Store, r: RunId, key: Key)
    requires t.pages == s.pages && SameRecord(t, u, r)
    ensures forall k: nat :: HoldsKey(u, r, k, key) <==> HoldsKey(s, r, k, key)
    ensures forall k: nat :: (r, k) in s.pages ==> (r, k) in u.pages && PageAt(u, r, k) == PageAt(s, r, k)
  {
    forall k: nat
      ensures HoldsKey(u, r, k, key) <==> HoldsKey(s, r, k, key)
      ensures (r, k) in s.pages ==> (r, k) in u.pages && PageAt(u, r, k) == PageAt(s, r, k)
    {
      assert SameRow(t, u, r, k);
    }
  }

  /** The run accounts for the memory exactly if the page that holds its key lists it. */
  lemma AccountedForIffListed(tr: seq<System>, r: RunId, j: nat, id: MemoryId, i: nat)
    requires IsTrace(tr) && CompletesAt(tr, r, j) && id in tr[|tr| - 1].memories
    requires HoldsKey(tr[|tr| - 1].store, r, i, KeyOf(tr[|tr| - 1].memories, id))
    ensures AccountedFor(tr[|tr| - 1].store, r, id) <==> id in ItemIds(PageAt(tr[|tr| - 1].store, r, i).items)
  {
    hide HasOutcome, IsWindowPage, InRange;
    var n := |tr| - 1;
    var s, lapsed := tr[n], Lapsed(tr, n, r);
    InvAlways(tr, n, r);
    FrozenAfter(tr, r, j, n);
    forall q: nat | Lists(s.store, r, q, id) ensures q == i {
      ListsInRange(s, lapsed, r, q, id);
      RangesApart(s, lapsed, r, q, i, KeyOf(s.memories, id));
    }
    if id in ItemIds(PageAt(s.store, r, i).items) {
      assert Lists(s.store, r, i, id);
      ListedHasOutcome(s.store, r, i, id);
    }
  }

  /**
    End-to-end, exactly. In every interleaving, a memory created before its project's cursor belongs to the window of
    exactly one advanced run; and if it was active whenever it was there until that run completed, the run accounts for
    it if and only if it was there when the page that holds its key was computed.
   */
  lemma CursorPassesExactly(tr: seq<System>, p: ProjectId, id: MemoryId) returns (r: RunId, j: nat, i: nat)
    requires IsTrace(tr)
    requires var s := tr[|tr| - 1];
             p in s.store.cursors && id in s.memories && s.memories[id].project == p
               && s.memories[id].createdAt < s.store.cursors[p]
    ensures var s := tr[|tr| - 1];
            && Covers(tr, p, r, j, s.memories[id].createdAt)
            && (SteadyUntil(tr, id, j) ==>
                  && HoldsKey(s.store, r, i, KeyOf(s.memories, id))
                  && (forall q: nat :: HoldsKey(s.store, r, q, KeyOf(s.memories, id)) ==> q == i)
                  && (exists k: nat :: k < j && ComputesAt(tr, r, PageAt(s.store, r, i), k))
                  && forall k: nat :: k < j && ComputesAt(tr, r, PageAt(s.store, r, i), k)
                       ==> (AccountedFor(s.store, r, id) <==> id in tr[k].memories))
  {
    hide Inv, HoldsKey, AccountedFor, ComputesAt;
    r, j := CursorPassesNothingInserted(tr, p, id);
    i := 0;
    FrozenAfter(tr, r, j, |tr| - 1);
    CompletingStepAt(tr, r, j);
    CompletingStep(tr[j], tr[j + 1], r);
    if SteadyUntil(tr, id, j) { i := AccountedForIff(tr, r, j, id); }
  }

  /**
    End-to-end safety with saves that may become visible late. In every interleaving, a memory created before its
    project's cursor belongs to the window of exactly one advanced run; and if it was inserted before that run began
    and stayed active until it completed, the run accounts for it.
  */
  lemma CursorPassesNothingInserted(tr: seq<System>, p: ProjectId, id: MemoryId) returns (r: RunId, j: nat)
    requires IsTrace(tr)
    requires var s := tr[|tr| - 1];
             p in s.store.cursors && id in s.memories && s.memories[id].project == p
               && s.memories[id].createdAt < s.store.cursors[p]
    ensures var s := tr[|tr| - 1];
            && Covers(tr, p, r, j, s.memories[id].createdAt)
            && (SteadyUntil(tr, id, j) && ThereFromTheStart(tr, r, id, j) ==> AccountedFor(s.store, r, id))
  {
    var n := |tr| - 1;
    var s := tr[n];
    InvAlways(tr, n, 0);
    ExactlyOneWindow(s.store, p, s.memories[id].createdAt);
    r :| Advanced(s.store, p, r) && s.store.runs[r].window.Contains(s.memories[id].createdAt);
    assert RunWindowOk(s.store, r) && ManifestOk(s.store, r);
    j := FindCompletion(tr, r, n);
    FrozenAfter(tr, r, j, n);
    assert Next(tr[j], tr[j + 1]);
    CompletingStep(tr[j], tr[j + 1], r);
    if SteadyUntil(tr, id, j) && ThereFromTheStart(tr, r, id, j) {
      var i := SteadyMemoryIsAccountedFor(tr, r, j, id);
    }
  }

  /**
    A memory inserted as soon as its creation time was read is there before any run begins whose window covers that
    time.
   */
  lemma PromptIsThereFromTheStart(tr: seq<System>, r: RunId, j: nat, id: MemoryId)
    requires IsTrace(tr) && PromptTrace(tr) && CompletesAt(tr, r, j) && tr[j].store.runs[r].window.mode == Schedule
    requires id in tr[|tr| - 1].memories && tr[|tr| - 1].memories[id].createdAt < tr[j].store.runs[r].window.to
    ensures ThereFromTheStart(tr, r, id, j)
  {
    forall i | 0 <= i <= j && r in tr[i].store.runs ensures id in tr[i].memories {
      ScopeStays(tr, r, i, j);
      EndsInThePast(tr, r, i);
      WasThere(tr, id, i, |tr| - 1);
    }
  }

  lemma {:induction false} ScopeStays(tr: seq<System>, r: RunId, i: nat, j: nat)
    requires IsTrace(tr) && i <= j < |tr| && r in tr[i].store.runs
    ensures SameScope(tr[i].store, tr[j].store, r)
  {
    hide IsTrace, Next;
    if i < j {
      ScopeStays(tr, r, i, j - 1);
      TraceStep(tr, j);
      StepKeepsScope(tr[j - 1], tr[j], r);
    }
  }

  lemma StepKeepsScope(s: System, t: System, r: RunId)
    requires Next(s, t) && r in s.store.runs
    ensures SameScope(s.store, t.store, r)
  {
    if StoreTransaction(s, t) { TransactionGrows(s, t); }
  }

  /**
    End-to-end safety in local mode. In every interleaving, a memory created before its project's cursor belongs to the
    window of exactly one advanced run; and if it stayed active until that run completed, exactly one
    window-stage page of the run lists it, with exactly one outcome recorded for it.
   */
  lemma CursorPassesNothing(tr: seq<System>, p: ProjectId, id: MemoryId) returns (r: RunId, j: nat)
    requires IsTrace(tr) && PromptTrace(tr)
    requires var s := tr[|tr| - 1];
             p in s.store.cursors && id in s.memories && s.memories[id].project == p
               && s.memories[id].createdAt < s.store.cursors[p]
    ensures var s := tr[|tr| - 1];
            && Covers(tr, p, r, j, s.memories[id].createdAt)
            && (SteadyUntil(tr, id, j) ==> AccountedFor(s.store, r, id))
  {
    r, j := CursorPassesNothingInserted(tr, p, id);
    FrozenAfter(tr, r, j, |tr| - 1);
    CompletingStepAt(tr, r, j);
    PromptIsThereFromTheStart(tr, r, j, id);
  }
}
