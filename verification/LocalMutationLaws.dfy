/**
  When a local mutation is applied, in terms of the state it finds, the request and the failures, and what an applied
  one leaves in rows and files. The other laws say what an unapplied call must not do.
 */
module LocalMutationLaws {
  import opened Base
  import opened Markdown
  import opened Mutations
  import opened LocalMutation
  import opened LocalMutationRuns

  /** The settings recorded in the database are enabled and at the version. */
  ghost predicate EnabledAt(db: Db, version: nat) {
    db.settings.Some? && db.settings.value.enabled && db.settings.value.version == version
  }

  /** The memory is indexed, its file is there, and file, row and request agree on the hash. */
  ghost predicate SeenAs(s: State, q: Request, id: MemoryId) {
    && id in s.db.rows && s.db.rows[id].filePath in s.files && id in q.expected
    && q.expected[id] == Sha256(s.files[s.db.rows[id].filePath])
    && q.expected[id] == s.db.rows[id].contentHash
  }

  ghost predicate BodyThere(s: State, id: MemoryId, revision: RevisionId) {
    && (id, revision) in s.db.revisions
    && var row := s.db.revisions[(id, revision)];
       row.contentKey in s.files && Sha256(s.files[row.contentKey]) == row.contentHash
  }

  /** The link is there, leads nowhere, and has been seen to do so for thirty days. */
  ghost predicate LongBroken(db: Db, id: MemoryId, name: Name, now: Time) {
    && id in db.rows && name in db.rows[id].links && (forall other :: other in db.rows ==> db.rows[other].name != name)
    && (id, name) in db.observations && now - db.observations[(id, name)] >= 30 * 86_400_000
  }

  /** How many files a mutation writes: a text for each memory it leaves, and a body for each it found. */
  ghost function FilesToWrite(a: Action): nat {
    if a.Create? then 1 else if a.Merge? then 4 else 2
  }

  /**
    What it takes for a mutation to be applied. `read` is the database when the settings are read, `commit` the one at
    the commit; between them and the start only settings and link observations can change.
   */
  ghost predicate Acceptable(s: State, q: Request, x: Context, shared: bool) {
    var a, read := q.action, InterruptedBy(s.db, x.before);
    var commit := InterruptedBy(read, x.meanwhile);
    && q.operation !in s.db.operations
    && (forall id :: id in MemoryIds(a) ==> SeenAs(s, q, id)) && |q.expected| == |MemoryIds(a)|
    && (a.Merge? ==> a.target != a.source)
    && (a.Restore? ==> BodyThere(s, a.memoryId, a.revision))
    && (a.Create? ==> (forall id :: id in s.db.rows ==> s.db.rows[id].name != a.input.name)
                      && MemoryFile(a.input.name) !in s.files)
    && (q.settingsVersion.Some?
        ==> EnabledAt(read, q.settingsVersion.value) && EnabledAt(commit, q.settingsVersion.value))
    && (q.settingsVersion.None? ==> shared || a.Restore?)
    && (q.maxActive.Some? ==>
          && shared && a.Create? && q.maxActive.value >= 1
          && |set id | id in s.db.rows && s.db.rows[id].active| < q.maxActive.value)
    && (a.PruneLinks? ==> forall name :: name in a.names ==> LongBroken(commit, a.memoryId, name, q.now))
    && (x.failingWrite.Some? ==> x.failingWrite.value >= FilesToWrite(a))
    && x.indexUp
  }

  lemma {:induction false} ReadAllOkIff(s: State, q: Request, ids: seq<MemoryId>)
    requires forall id :: id in ids ==> id in s.db.rows
    ensures ReadAll(s, q, ids).Ok? <==> forall id :: id in ids ==> SeenAs(s, q, id)
  {
    if ids != [] {
      var n := |ids| - 1;
      assert ids == ids[..n] + [ids[n]];
      ReadAllOkIff(s, q, ids[..n]);
      assert (forall id :: id in ids ==> SeenAs(s, q, id))
        <==> (forall id :: id in ids[..n] ==> SeenAs(s, q, id)) && SeenAs(s, q, ids[n]);
    }
  }

  /**
    Reading, planning and naming depend on rows, revisions, operations and files; the settings come from the database.
   */
  ghost predicate SameContents(s: State, t: State) {
    && t.db.rows == s.db.rows && t.db.revisions == s.db.revisions && t.db.operations == s.db.operations
    && t.files == s.files
  }

  /** The part of the conditions that is checked before the first write. */
  ghost predicate Plannable(s: State, q: Request, shared: bool) {
    var a := q.action;
    && q.operation !in s.db.operations
    && (forall id :: id in MemoryIds(a) ==> SeenAs(s, q, id)) && |q.expected| == |MemoryIds(a)|
    && (a.Merge? ==> a.target != a.source)
    && (a.Restore? ==> BodyThere(s, a.memoryId, a.revision))
    && (a.Create? ==> (forall id :: id in s.db.rows ==> s.db.rows[id].name != a.input.name)
                      && MemoryFile(a.input.name) !in s.files)
    && (q.settingsVersion.Some? ==> EnabledAt(s.db, q.settingsVersion.value))
    && (q.settingsVersion.None? ==> shared || a.Restore?)
  }

  lemma PlannedOkIff(s: State, q: Request, x: Context, shared: bool)
    requires RowsMatch(s.db) && forall id :: id in MemoryIds(q.action) ==> id in s.db.rows
    ensures Planned(s, q, x, shared).Ok? <==> Plannable(s, q, shared)
  {
    hide Prepare, ReadAll;
    var a, ids := q.action, MemoryIds(q.action);
    ReadAllOkIff(s, q, ids);
    var texts := ReadAll(s, q, ids);
    if texts.Ok? {
      var revision := if a.Restore? then ReadRevision(s, a.memoryId, a.revision) else None;
      PrepareGoesThrough(s, q, texts.value, if revision.Some? then Some(Parse(revision.value)) else None, x);
    }
  }

  /** With the memories read, preparing fails only for a merge of one memory or a missing revision. */
  lemma PrepareGoesThrough(s: State, q: Request, texts: map<MemoryId, Text>, restored: Option<Memory>, x: Context)
    requires RowsMatch(s.db) && ReadAll(s, q, MemoryIds(q.action)) == Ok(texts)
    requires forall id :: id in MemoryIds(q.action) ==> id in s.db.rows
    ensures Prepare(q.action, q.now, MemoriesOf(texts), CurrentSettings(s.db), restored, x.outside).Some?
            <==> (q.action.Merge? ==> q.action.target != q.action.source) && (q.action.Restore? ==> restored.Some?)
  {
    hide Prepare, ReadAll;
    var a, ids := q.action, MemoryIds(q.action);
    MemoryIdsAre(a);
    forall id | id in ids ensures id in texts && Parse(texts[id]).id == id {
      ReadAllIsExact(s, q, ids, id);
      assert RowMatches(s.db, id);
    }
    assert a.Merge? ==> a.target in ids && a.source in ids;
    assert !a.Create? && !a.Merge? ==> a.memoryId in ids;
    PrepareThrowsIff(a, q.now, MemoriesOf(texts), CurrentSettings(s.db), restored, x.outside);
  }

  lemma WritesAre(s: State, q: Request, x: Context, shared: bool, p: Plan)
    requires RowsMatch(s.db) && Planned(s, q, x, shared) == Ok(p)
    requires forall id :: id in MemoryIds(q.action) ==> id in s.db.rows
    ensures Writes(p.texts, p.after) == FilesToWrite(q.action)
    ensures q.action.Merge? ==> q.action.target != q.action.source
  {
    hide Planned;
    PlannedMemories(s, q, x, shared, p);
    MemoryIdsAre(q.action);
    if q.action.Create? {
      assert p.after[..0] == [] && p.after[..|p.after| - 1] == [];
    } else {
      forall i | 0 <= i < |p.after| ensures p.after[i].id in p.texts {
        PlannedRow(s, q, x, shared, p, i);
        assert MemoryIds(q.action)[i] in MemoryIds(q.action);
      }
      AllFound(p.texts, p.after);
      if q.action.Merge? && q.action.target == q.action.source { NoMergeOfOne(s, q, x, shared, p); }
    }
  }

  lemma NoMergeOfOne(s: State, q: Request, x: Context, shared: bool, p: Plan)
    requires q.action.Merge? && q.action.target == q.action.source
    ensures Planned(s, q, x, shared) != Ok(p)
  {
  }

  lemma {:induction false} AllFound(texts: map<MemoryId, Text>, after: seq<Memory>)
    requires forall i :: 0 <= i < |after| ==> after[i].id in texts
    ensures Writes(texts, after) == 2 * |after|
  {
    if after != [] { AllFound(texts, after[..|after| - 1]); }
  }

  /** The commit transaction lets a planned mutation pass exactly on settings, cap and pruned links. */
  lemma CommitAllowedIff(db: Db, s: State, q: Request, x: Context, shared: bool, p: Plan)
    requires RowsMatch(s.db) && Planned(s, q, x, shared) == Ok(p) && db.rows == s.db.rows
    requires forall id :: id in MemoryIds(q.action) ==> id in s.db.rows
    requires q.action.Create? ==> x.outside.freshId !in s.db.rows
    ensures CommitAllowed(db, q, p.after, shared)
            <==> && (q.settingsVersion.Some? ==> EnabledAt(db, q.settingsVersion.value))
                 && (q.settingsVersion.None? ==> shared || q.action.Restore?)
                 && (q.maxActive.Some? ==>
                       && shared && q.action.Create? && q.maxActive.value >= 1
                       && |set id | id in db.rows && db.rows[id].active| < q.maxActive.value)
                 && (q.action.PruneLinks? ==>
                       forall name :: name in q.action.names ==> LongBroken(db, q.action.memoryId, name, q.now))
  {
    PlannedOkIff(s, q, x, shared);
    ExpectedAreNamed(s, q, shared);
    PlannedNamesFree(db, s, q, x, shared, p);
    if q.action.PruneLinks? {
      var id := q.action.memoryId;
      forall i | 0 <= i < |q.action.names|
        ensures MayPrune(db, id, q.action.names[i], q.now) <==> LongBroken(db, id, q.action.names[i], q.now)
      {
        assert NameInUse(db, q.action.names[i])
          <==> exists other :: other in db.rows && db.rows[other].name == q.action.names[i];
      }
      assert forall name :: name in q.action.names
               ==> exists i :: 0 <= i < |q.action.names| && q.action.names[i] == name;
    }
  }

  /** A request whose reads pass expects hashes of exactly the memories it names. */
  lemma ExpectedAreNamed(s: State, q: Request, shared: bool)
    requires Plannable(s, q, shared)
    ensures HashesMatch(s.db, q)
  {
    var ids := MemoryIds(q.action);
    var named := set id | id in ids;
    assert named <= q.expected.Keys;
    DistinctCount(ids);
    SameSizeSame(named, q.expected.Keys);
  }

  lemma {:induction false} DistinctCount(ids: seq<MemoryId>)
    requires Distinct(ids)
    ensures |set id | id in ids| == |ids|
  {
    if ids != [] {
      var n := |ids| - 1;
      assert ids == ids[..n] + [ids[n]];
      DistinctCount(ids[..n]);
      assert (set id | id in ids) == (set id | id in ids[..n]) + {ids[n]};
    }
  }

  lemma SameSizeSame(a: set<MemoryId>, b: set<MemoryId>)
    requires a <= b && |a| == |b|
    ensures a == b
  {
    assert |b - a| == 0;
  }

  lemma PlannedNamesFree(db: Db, s: State, q: Request, x: Context, shared: bool, p: Plan)
    requires RowsMatch(s.db) && Planned(s, q, x, shared) == Ok(p) && db.rows == s.db.rows
    requires Plannable(s, q, shared)
    ensures NamesFree(db, p.after)
  {
    hide Planned;
    PlannedMemories(s, q, x, shared, p);
    forall i, id | 0 <= i < |p.after| && id in db.rows && db.rows[id].name == p.after[i].name
      ensures id == p.after[i].id
    {
      if !q.action.Create? { PlannedRow(s, q, x, shared, p, i); }
    }
  }

  /** A mutation is applied exactly if the state, the request and the failures are acceptable. */
  lemma AppliedIff(s: State, q: Request, x: Context, shared: bool)
    requires RowsMatch(s.db) && (q.action.Create? ==> x.outside.freshId !in s.db.rows)
    ensures Mutated(s, q, x, shared).0 == Returned(Applied) <==> Acceptable(s, q, x, shared)
  {
    hide Planned, CommitAllowed;
    InterruptKeepsRows(s.db, x.before);
    var started := s.(db := InterruptedBy(s.db, x.before));
    InterruptKeepsRows(started.db, x.meanwhile);
    SameRowsSameLookups(s.db, started.db, q);
    var named := forall id :: id in MemoryIds(q.action) ==> id in s.db.rows;
    if named {
      PlannedOkIff(started, q, x, shared);
      SameSeen(s, started, q);
      if Planned(started, q, x, shared).Ok? {
        var p := Planned(started, q, x, shared).value;
        WritesAre(started, q, x, shared, p);
        CommitAllowedIff(InterruptedBy(started.db, x.meanwhile), started, q, x, shared, p);
      } else {
        PlanNeverSaysApplied(started, q, x, shared);
      }
    } else {
      UnnamedIsNotApplied(s, q, x, shared);
    }
  }

  lemma SameSeen(s: State, t: State, q: Request)
    requires SameContents(s, t)
    ensures forall id :: SeenAs(s, q, id) <==> SeenAs(t, q, id)
    ensures forall id, revision :: BodyThere(s, id, revision) <==> BodyThere(t, id, revision)
  {
  }

  /** A request that names something else than an indexed memory by its id is not applied. */
  lemma UnnamedIsNotApplied(s: State, q: Request, x: Context, shared: bool)
    requires exists id :: id in MemoryIds(q.action) && id !in s.db.rows
    ensures Mutated(s, q, x, shared).0 != Returned(Applied)
  {
    if Mutated(s, q, x, shared).0 == Returned(Applied) {
      var id :| id in MemoryIds(q.action) && id !in s.db.rows;
      AppliedSawExpectedHashes(s, q, x, shared, id);
    }
  }

  /** A known operation is answered without doing anything: already applied if the payload is the recorded one. */
  lemma KnownOperationIsAnswered(s: State, q: Request, x: Context, shared: bool)
    requires q.operation in s.db.operations
    ensures Mutated(s, q, x, shared).0
            == Returned(if s.db.operations[q.operation] == q.payload then AlreadyApplied else Conflict)
    ensures Untouched(s, Mutated(s, q, x, shared).1)
  {
    InterruptKeepsRows(s.db, x.before);
  }

  /** The name a creation asks for has a row or a file. */
  ghost predicate NameGone(s: State, a: Action) {
    a.Create? && ((exists id :: id in s.db.rows && s.db.rows[id].name == a.input.name)
                  || MemoryFile(a.input.name) in s.files)
  }

  /** The settings let the request go on: enabled at the version it states, or none stated where that is allowed. */
  ghost predicate SettingsLet(db: Db, q: Request, shared: bool) {
    && (q.settingsVersion.Some? ==> EnabledAt(db, q.settingsVersion.value))
    && (q.settingsVersion.None? ==> shared || q.action.Restore?)
  }

  /** What the commit transaction still has to find: settings, cap and broken links. */
  ghost predicate CommitLets(db: Db, q: Request, shared: bool) {
    && SettingsLet(db, q, shared)
    && (q.maxActive.Some? ==>
          && shared && q.action.Create? && q.maxActive.value >= 1
          && |set id | id in db.rows && db.rows[id].active| < q.maxActive.value)
    && (q.action.PruneLinks? ==>
          forall name :: name in q.action.names ==> LongBroken(db, q.action.memoryId, name, q.now))
  }

  /**
    A new operation whose memories read as expected throws exactly for a missing revision, a merge of one memory, a
    failing write or a failing index, each where the call gets that far; otherwise, unless it is applied, it answers
    conflict.
   */
  lemma ThrowsIff(s: State, q: Request, x: Context, shared: bool)
    requires RowsMatch(s.db) && (q.action.Create? ==> x.outside.freshId !in s.db.rows)
    requires q.operation !in s.db.operations && |q.expected| == |MemoryIds(q.action)|
    requires forall id :: id in MemoryIds(q.action) ==> SeenAs(s, q, id)
    ensures var a, read := q.action, InterruptedBy(s.db, x.before);
            var commit := InterruptedBy(read, x.meanwhile);
            var answer := Mutated(s, q, x, shared).0;
            && (answer == Threw
                <==> if a.Restore? && !BodyThere(s, a.memoryId, a.revision) then true
                     else !NameGone(s, a) && SettingsLet(read, q, shared)
                          && ((a.Merge? && a.target == a.source)
                              || (x.failingWrite.Some? && x.failingWrite.value < FilesToWrite(a))
                              || (CommitLets(commit, q, shared) && !x.indexUp)))
            && answer in {Threw, Returned(Conflict), Returned(Applied)}
  {
    hide CommitAllowed, Prepare, ReadAll, CommitLets, Unwound, StoreAll, Committed;
    InterruptKeepsRows(s.db, x.before);
    var started := s.(db := InterruptedBy(s.db, x.before));
    InterruptKeepsRows(started.db, x.meanwhile);
    var commit := InterruptedBy(started.db, x.meanwhile);
    SameRowsSameLookups(s.db, started.db, q);
    SameSeen(s, started, q);
    ReadAllOkIff(started, q, MemoryIds(q.action));
    PlannedOkIff(started, q, x, shared);
    if Planned(started, q, x, shared).Ok? {
      var p := Planned(started, q, x, shared).value;
      WritesAre(started, q, x, shared, p);
      CommitAllowedIff(commit, started, q, x, shared, p);
      assert CommitAllowed(commit, q, p.after, shared) <==> CommitLets(commit, q, shared) by {
        CommitLetsIs(commit, q, shared);
      }
    }
  }

  lemma CommitLetsIs(db: Db, q: Request, shared: bool)
    ensures CommitLets(db, q, shared)
            <==> && (q.settingsVersion.Some? ==> EnabledAt(db, q.settingsVersion.value))
                 && (q.settingsVersion.None? ==> shared || q.action.Restore?)
                 && (q.maxActive.Some? ==>
                       && shared && q.action.Create? && q.maxActive.value >= 1
                       && |set id | id in db.rows && db.rows[id].active| < q.maxActive.value)
                 && (q.action.PruneLinks? ==>
                       forall name :: name in q.action.names ==> LongBroken(db, q.action.memoryId, name, q.now))
  {
  }

  /**
    A new operation stops at the first of its memories that does not read as expected: with an exception if its row has
    no file, or if it has no row and is to be restored; with a conflict otherwise.
   */
  lemma UnreadIsAnswered(s: State, q: Request, x: Context, shared: bool, i: nat)
    requires q.operation !in s.db.operations && i < |MemoryIds(q.action)|
    requires forall j :: 0 <= j < i ==> SeenAs(s, q, MemoryIds(q.action)[j])
    requires var id := MemoryIds(q.action)[i];
             (id in s.db.rows && !SeenAs(s, q, id)) || (id !in s.db.rows && !NameInUse(s.db, id))
    ensures var id := MemoryIds(q.action)[i];
            var threw := if id in s.db.rows then s.db.rows[id].filePath !in s.files else q.action.Restore?;
            Mutated(s, q, x, shared).0 == if threw then Threw else Returned(Conflict)
  {
    InterruptKeepsRows(s.db, x.before);
    var started := s.(db := InterruptedBy(s.db, x.before));
    var ids := MemoryIds(q.action);
    SameSeen(s, started, q);
    UnreadIsError(started, q, ids, i, |ids|);
    assert ids[..|ids|] == ids;
  }

  lemma {:induction false} UnreadIsError(s: State, q: Request, ids: seq<MemoryId>, i: nat, n: nat)
    requires i < n <= |ids| && forall j :: 0 <= j < i ==> SeenAs(s, q, ids[j])
    requires (ids[i] in s.db.rows && !SeenAs(s, q, ids[i])) || (ids[i] !in s.db.rows && !NameInUse(s.db, ids[i]))
    ensures var threw := if ids[i] in s.db.rows then s.db.rows[ids[i]].filePath !in s.files else q.action.Restore?;
            ReadAll(s, q, ids[..n]) == Err(if threw then Threw else Returned(Conflict))
  {
    assert ids[..n][..n - 1] == ids[..n - 1];
    if i < n - 1 {
      UnreadIsError(s, q, ids, i, n - 1);
    } else {
      ReadAllOkIff(s, q, ids[..i]);
      if ids[i] !in s.db.rows {
        assert forall id :: id in s.db.rows ==> s.db.rows[id].name != ids[i];
      }
    }
  }

  /** The memories an applied mutation was prepared from: the texts indexed for the ones it names. */
  ghost function MemoriesBefore(s: State, q: Request): map<MemoryId, Memory> {
    map id | id in MemoryIds(q.action) && id in s.db.rows :: Parse(TextOf(s, id))
  }

  /** The revision a restore goes back to. */
  ghost function RevisionBefore(s: State, a: Action): Option<Memory> {
    if a.Restore? && (a.memoryId, a.revision) in s.db.revisions
    then Some(Parse(s.db.revisions[(a.memoryId, a.revision)].contentHash.text))
    else None
  }

  /**
    What an applied mutation leaves: for each memory that the action makes, prepared from the memories as indexed and
    with the settings in force, its text in its file, and a row with its name, hash and activity, and its links if it
    is active.
   */
  lemma AppliedStoresPrepared(s: State, q: Request, x: Context, shared: bool)
    requires Inv(s) && Mutated(s, q, x, shared).0 == Returned(Applied)
    ensures var t, settings := Mutated(s, q, x, shared).1, CurrentSettings(InterruptedBy(s.db, x.before));
            var after := Prepare(q.action, q.now, MemoriesBefore(s, q), settings, RevisionBefore(s, q.action),
                                 x.outside);
            && after.Some?
            && forall i :: 0 <= i < |after.value| ==> IsStored(t, after.value[i])
  {
    hide Mutated, Planned, Inv, Stored, NamesFree, Prepare;
    var t := Mutated(s, q, x, shared).1;
    var p := AppliedPlan(s, q, x, shared);
    AppliedTexts(s, q, x, shared, p);
    forall i | 0 <= i < |p.after| ensures IsStored(t, p.after[i]) {
      var m := p.after[i];
      FoundIsWritten(s, t, q, x, p, m);
      AppliedRow(s, t, q, x, p, m.id);
      SameNameSameMemory(s, t, q, x, p, m, FindMemory(p.after, m.id).value);
      AppliedFile(s, t, q, x, p, m.name);
    }
  }

  /** The memory's text is in the file of its name, and its row shows it. */
  ghost predicate IsStored(t: State, m: Memory) {
    && At(t.files, MemoryFile(m.name)) == Some(Serialize(m))
    && m.id in t.db.rows
    && var row := t.db.rows[m.id];
       && row.name == m.name && row.filePath == MemoryFile(m.name) && row.contentHash == Sha256(Serialize(m))
       && (row.active <==> m.status.None? || m.status == Some(Active))
       && row.links == (if row.active then m.links else [])
  }

  /** The plan of an applied mutation was prepared from the texts indexed. */
  lemma AppliedTexts(s: State, q: Request, x: Context, shared: bool, p: Plan)
    requires Inv(s) && Planned(s.(db := InterruptedBy(s.db, x.before)), q, x, shared) == Ok(p)
    requires forall id :: id in p.texts ==> id in s.db.rows && s.db.rows[id].contentHash == Sha256(p.texts[id])
    requires p.texts.Keys == set id | id in MemoryIds(q.action)
    ensures Prepare(q.action, q.now, MemoriesBefore(s, q), CurrentSettings(InterruptedBy(s.db, x.before)),
                    RevisionBefore(s, q.action), x.outside) == Some(p.after)
  {
    hide Prepare, Inv, ReadAll, FindRow;
    InterruptKeepsRows(s.db, x.before);
    TextsAreBefore(s, q, p);
    if q.action.Restore? { InvRevision(s, q.action.memoryId, q.action.revision); }
  }

  lemma TextsAreBefore(s: State, q: Request, p: Plan)
    requires forall id :: id in p.texts ==> id in s.db.rows && s.db.rows[id].contentHash == Sha256(p.texts[id])
    requires p.texts.Keys == set id | id in MemoryIds(q.action)
    ensures MemoriesOf(p.texts) == MemoriesBefore(s, q)
  {
  }

  lemma InvRevision(s: State, id: MemoryId, revision: RevisionId)
    requires Inv(s)
    ensures RevisionOk(s, id, revision)
  {
  }

  /** An applied archive leaves the memory inactive, without links in the index, and otherwise as it was. */
  lemma AppliedArchive(s: State, q: Request, x: Context, shared: bool)
    requires Inv(s) && Mutated(s, q, x, shared).0 == Returned(Applied) && q.action.Archive?
    ensures var t, id := Mutated(s, q, x, shared).1, q.action.memoryId;
            && id in s.db.rows && id in t.db.rows && !t.db.rows[id].active && t.db.rows[id].links == []
            && ArchivedAs(Parse(TextOf(s, id)), Parse(TextOf(t, id)), Plain(q.action.reason), q.now)
  {
    hide Mutated, Inv, Prepare;
    var id, settings := q.action.memoryId, CurrentSettings(InterruptedBy(s.db, x.before));
    AppliedStoresPrepared(s, q, x, shared);
    MemoryIdsAre(q.action);
    assert q.action.memoryId in MemoryIds(q.action);
    AppliedSawExpectedHashes(s, q, x, shared, id);
    PreparedArchive(q.action, q.now, MemoriesBefore(s, q), settings, RevisionBefore(s, q.action), x.outside);
    var m := Prepare(q.action, q.now, MemoriesBefore(s, q), settings, RevisionBefore(s, q.action), x.outside).value[0];
    InvRow(s, id);
    ParsedIsNormal(TextOf(s, id));
    ParseSerialize(m);
    assert IsStored(Mutated(s, q, x, shared).1, m);
  }

  // ----- rename -----

  /** The new name stands wherever the old one stood, and everything else stands as it was. */
  ghost predicate Renames(names: seq<Name>, renamed: seq<Name>, was: Name, next: Name) {
    && |renamed| == |names|
    && forall i :: 0 <= i < |names| ==> renamed[i] == if names[i] == was then next else names[i]
  }

  /** The renamed memory: a file under the new name with its text otherwise unchanged, and no file under the old one. */
  lemma RenamedText(s: State, id: MemoryId, next: Name, now: Time)
    requires Inv(s) && id in s.db.rows && s.db.rows[id].filePath in s.files && !NameInUse(s.db, next)
    ensures var t := Renamed(s, id, next, now);
            && MemoryFile(s.db.rows[id].name) !in t.files && MemoryFile(next) in t.files
            && Parse(t.files[MemoryFile(next)]) == Parse(TextOf(s, id)).(name := next, updatedAt := now)
            && forall path: Path :: path.RevisionFile? ==> At(t.files, path) == At(s.files, path)
  {
    hide NamesDistinct, RevisionOk, FilesOwned, Redirected;
    InvRow(s, id);
    var m := Parse(TextOf(s, id)).(name := next, updatedAt := now);
    ParseSerialize(m);
    ParsedIsNormal(TextOf(s, id));
  }

  /** Every other memory: its links and supersedes name the new name for the old one, and nothing else has changed. */
  lemma RenamedReferences(s: State, id: MemoryId, next: Name, now: Time, other: MemoryId)
    requires Inv(s) && id in s.db.rows && s.db.rows[id].filePath in s.files && !NameInUse(s.db, next)
    requires other in s.db.rows && other != id
    ensures var t := Renamed(s, id, next, now); var was := s.db.rows[id].name;
            && other in t.db.rows && At(t.files, s.db.rows[other].filePath) == Some(TextOf(t, other))
            && var m, r := Parse(TextOf(s, other)), Parse(TextOf(t, other));
               && r == m.(links := r.links, supersedes := r.supersedes)
               && Renames(m.links, r.links, was, next) && Renames(m.supersedes, r.supersedes, was, next)
               && (was !in m.links && was !in m.supersedes ==> TextOf(t, other) == TextOf(s, other))
  {
    hide RevisionOk, FilesOwned, Redirected, ReplacedOnce;
    InvRow(s, id);
    InvRow(s, other);
    RedirectedText(TextOf(s, other), s.db.rows[id].name, next);
  }

  lemma RedirectedText(text: Text, was: Name, next: Name)
    ensures var m, r := Parse(text), Parse(Redirected(text, was, next));
            && r == m.(links := r.links, supersedes := r.supersedes)
            && Renames(m.links, r.links, was, next) && Renames(m.supersedes, r.supersedes, was, next)
            && (was !in m.links && was !in m.supersedes ==> Redirected(text, was, next) == text)
  {
    var m := Parse(text);
    if was in m.links || was in m.supersedes {
      var r := m.(links := Replaced(m.links, was, next), supersedes := Replaced(m.supersedes, was, next));
      ParseSerialize(r);
      ParsedIsNormal(text);
    }
  }

  lemma {:induction false} WithoutOne(links: seq<Name>, was: Name)
    ensures |Without(links, [was])| <= |links|
    ensures was in links ==> |Without(links, [was])| < |links|
    ensures was !in links ==> Without(links, [was]) == links
  {
    if links != [] {
      var n := |links| - 1;
      assert links == links[..n] + [links[n]];
      WithoutOne(links[..n], was);
    }
  }

  lemma ReplacedOnceIs(links: seq<Name>, was: Name, next: Name)
    requires was != next
    ensures ReplacedOnce(links, was, next) == links <==> was !in links
    ensures ReplacedOnce(links, was, next) == Replaced(links, was, next) <==> !(was in links && next in links)
  {
    WithoutOne(links, was);
    if was in links {
      var i :| 0 <= i < |links| && links[i] == was;
      assert Replaced(links, was, next)[i] != links[i];
    } else {
      assert Replaced(links, was, next) == links;
    }
  }

  /**
    The rename does not always leave the indexed links those of the file. They agree afterwards, if they did before,
    exactly if the renamed memory does not link to itself and no other memory links to both names: the rows lose a
    duplicate that the files keep, and the file of the renamed memory is not rewritten.
   */
  lemma RenamedLinksAgreeIff(s: State, id: MemoryId, next: Name, now: Time, other: MemoryId)
    requires Inv(s) && id in s.db.rows && s.db.rows[id].filePath in s.files && !NameInUse(s.db, next)
    requires other in s.db.rows && s.db.rows[other].links == Parse(TextOf(s, other)).links
    ensures var t, was, links := Renamed(s, id, next, now), s.db.rows[id].name, s.db.rows[other].links;
            && other in t.db.rows
            && (t.db.rows[other].links == Parse(TextOf(t, other)).links
                <==> if other == id then was !in links else !(was in links && next in links))
            && (other != id && was in links && next in links ==> !Distinct(Parse(TextOf(t, other)).links))
  {
    hide RevisionOk, FilesOwned, Redirected, ReplacedOnce, NamesDistinct;
    var t, was, links := Renamed(s, id, next, now), s.db.rows[id].name, s.db.rows[other].links;
    InvRow(s, id);
    InvRow(s, other);
    assert was != next;
    ReplacedOnceIs(links, was, next);
    if other == id {
      ParseSerialize(Parse(TextOf(s, id)).(name := next, updatedAt := now));
      assert Parse(TextOf(t, id)).links == links;
    } else {
      RenamedReferences(s, id, next, now, other);
      var renamed := Parse(TextOf(t, other)).links;
      assert renamed == Replaced(links, was, next);
      if was in links && next in links {
        var i :| 0 <= i < |links| && links[i] == was;
        var j :| 0 <= j < |links| && links[j] == next;
        assert renamed[i] == renamed[j] == next;
      }
    }
  }

  // ----- The calls that do not take the lock -----

  /** Of two saves of the settings that expect the same version, at most one is stored. */
  lemma OneSaveWins(db: Db, between: seq<Unlocked>, one: Unlocked, two: Unlocked)
    requires one.SaveSettings? && two.SaveSettings? && one.expectedVersion == two.expectedVersion
    requires VersionOf(db.settings) == one.expectedVersion
    ensures var stored := Interrupted(db, one); var later := InterruptedBy(stored, between);
            && stored.settings == Some(Settings(one.enabled, one.days, one.expectedVersion + 1))
            && Interrupted(later, two) == later
  {
    VersionsOnlyGrow(Interrupted(db, one), between);
  }

  /** A link first seen missing keeps its date whatever else is observed, until the observation is cleared. */
  lemma {:induction false} FirstSeenStays(db: Db, us: seq<Unlocked>, id: MemoryId, name: Name)
    requires (id, name) in db.observations && ClearObservation(id, name) !in us
    ensures var after := InterruptedBy(db, us).observations;
            (id, name) in after && after[(id, name)] == db.observations[(id, name)]
  {
    if us != [] {
      assert us[|us| - 1] in us;
      FirstSeenStays(db, us[..|us| - 1], id, name);
    }
  }

  /**
    A link that is not known to be missing is observed at the given time, and one that was cleared can be observed
    anew.
   */
  lemma SeenAgain(db: Db, id: MemoryId, name: Name, at: Time)
    ensures var cleared := Interrupted(db, ClearObservation(id, name));
            && (id, name) !in cleared.observations
            && Interrupted(cleared, ObserveLink(id, name, at)).observations
               == cleared.observations[(id, name) := at]
            && forall key :: key != (id, name)
                 ==> (key in cleared.observations <==> key in db.observations)
                     && (key in db.observations ==> cleared.observations[key] == db.observations[key])
  {
  }
}
