/**
  Local mutations over whole runs, interleaved with saves, updates, forgets, renames and unlocked settings writes: each
  operation is applied at most once, an applied one used the settings in force, and the revision log can undo what it
  recorded. The one failing case, a memory named by its name, comes with its exact condition.
 */
module LocalMutationRuns {
  import opened Base
  import opened Markdown
  import opened Mutations
  import opened LocalMutation

  // ----- One call -----

  /** Nothing has changed apart from what the unlocked calls did to settings and observations. */
  ghost predicate Untouched(s: State, t: State) {
    t == State(s.db.(settings := t.db.settings, observations := t.db.observations), s.files)
  }

  /** Every call that is not applied, whether it answers or throws, leaves all tables but the unlocked ones as found. */
  lemma UnappliedKeepsTables(s: State, q: Request, x: Context, shared: bool)
    requires Mutated(s, q, x, shared).0 != Returned(Applied)
    ensures var t := Mutated(s, q, x, shared).1;
            t.db == s.db.(settings := t.db.settings, observations := t.db.observations)
  {
    InterruptKeepsRows(s.db, x.before);
    InterruptKeepsRows(InterruptedBy(s.db, x.before), x.meanwhile);
  }

  /**
    The failing case: everything that is read fits, a memory is named by its name, and the write loop gets to it. The
    rollback then takes the memory's file for a new one.
   */
  ghost predicate WritesByName(s: State, q: Request, x: Context, shared: bool) {
    var plan := Planned(s.(db := InterruptedBy(s.db, x.before)), q, x, shared);
    plan.Ok? && exists i :: 0 <= i < |plan.value.after| && ByName(s.db, q, plan.value, i) && Begins(plan.value, x, i)
  }

  ghost predicate ByName(db: Db, q: Request, p: Plan, i: nat) {
    i < |MemoryIds(q.action)| && MemoryIds(q.action)[i] !in db.rows
  }

  /** Every id the action names is the id of a row, or matches no row at all. */
  ghost predicate NamesById(db: Db, q: Request) {
    forall id :: id in MemoryIds(q.action) && FindRow(db, id).Some? ==> id in db.rows
  }

  /**
    A call that is not applied, whether it answers or throws, leaves files, revision bodies and tables as found, exactly
    unless it got to write a memory that it named by its name.
   */
  lemma UnappliedChangesNothingIff(s: State, q: Request, x: Context, shared: bool)
    requires RowsMatch(s.db) && Mutated(s, q, x, shared).0 != Returned(Applied)
    ensures Untouched(s, Mutated(s, q, x, shared).1) <==> !WritesByName(s, q, x, shared)
  {
    hide Planned, StoreAll, IndexAll, CommitAllowed;
    UnappliedKeepsTables(s, q, x, shared);
    InterruptKeepsRows(s.db, x.before);
    var started := s.(db := InterruptedBy(s.db, x.before));
    var plan := Planned(started, q, x, shared);
    if plan.Ok? {
      var p := plan.value;
      assert Mutated(s, q, x, shared).1.files == Unwound(s.files, p, x, |p.after|);
      OrphansAreByName(started, q, x, shared, p);
      UnwoundIsWhole(s.files, p, x);
      SameRowsSameLookups(s.db, started.db, q);
    }
  }

  /** With the guard a caller can check before the call, every call that is not applied changes nothing. */
  lemma UnappliedChangesNothing(s: State, q: Request, x: Context, shared: bool)
    requires RowsMatch(s.db) && NamesById(s.db, q) && Mutated(s, q, x, shared).0 != Returned(Applied)
    ensures Untouched(s, Mutated(s, q, x, shared).1)
  {
    hide Planned, Mutated;
    UnappliedChangesNothingIff(s, q, x, shared);
    InterruptKeepsRows(s.db, x.before);
    var started := s.(db := InterruptedBy(s.db, x.before));
    var plan := Planned(started, q, x, shared);
    if plan.Ok? {
      forall i | 0 <= i < |plan.value.after| ensures !ByName(s.db, q, plan.value, i) {
        if i < |MemoryIds(q.action)| {
          PlanFinds(started, q, x, shared, plan.value, MemoryIds(q.action)[i]);
          SameRowsSameLookups(s.db, started.db, q);
        }
      }
    }
  }

  lemma PlanFinds(s: State, q: Request, x: Context, shared: bool, p: Plan, id: MemoryId)
    requires Planned(s, q, x, shared) == Ok(p) && id in MemoryIds(q.action)
    ensures FindRow(s.db, id).Some?
  {
    ReadAllIsExact(s, q, MemoryIds(q.action), id);
  }

  lemma SameRowsSameLookups(db: Db, db': Db, q: Request)
    requires db.rows == db'.rows
    ensures RowsMatch(db) <==> RowsMatch(db')
    ensures NamesById(db, q) <==> NamesById(db', q)
  {
    forall id ensures FindRow(db, id) == FindRow(db', id) {
      assert (set i | i in db.rows && db.rows[i].name == id) == (set i | i in db'.rows && db'.rows[i].name == id);
    }
    forall id | id in db.rows ensures RowMatches(db, id) <==> RowMatches(db', id) {}
  }

  lemma UnwoundIsWhole(files: map<Path, Text>, p: Plan, x: Context)
    ensures Unwound(files, p, x, |p.after|) == files
            <==> forall path :: path in files ==> !Orphaned(p, x, |p.after|, path)
  {
    var unwound := Unwound(files, p, x, |p.after|);
    if unwound == files {
      forall path | path in files ensures !Orphaned(p, x, |p.after|, path) { assert path in unwound; }
    }
  }

  /** The files lost are those of the memories that were named by their names. */
  lemma OrphansAreByName(s: State, q: Request, x: Context, shared: bool, p: Plan)
    requires Planned(s, q, x, shared) == Ok(p) && RowsMatch(s.db)
    ensures (exists path :: path in s.files && Orphaned(p, x, |p.after|, path))
            <==> exists i :: 0 <= i < |p.after| && ByName(s.db, q, p, i) && Begins(p, x, i)
  {
    hide Planned, Begins;
    PlannedMemories(s, q, x, shared, p);
    if q.action.Create? {
      assert MemoryIds(q.action) == [];
    } else {
      forall i | 0 <= i < |p.after|
        ensures MemoryFile(p.after[i].name) in s.files && (p.after[i].id !in p.texts <==> ByName(s.db, q, p, i))
      {
        PlannedRow(s, q, x, shared, p, i);
        NamedRowIsNotRead(s, q, x, shared, p, i);
      }
      if i :| 0 <= i < |p.after| && ByName(s.db, q, p, i) && Begins(p, x, i) {
        assert MemoryFile(p.after[i].name) in s.files && Orphaned(p, x, |p.after|, MemoryFile(p.after[i].name));
      }
    }
  }

  /** A memory named by its name was not read under its id too: its mutation would be a merge with itself. */
  lemma NamedRowIsNotRead(s: State, q: Request, x: Context, shared: bool, p: Plan, i: nat)
    requires Planned(s, q, x, shared) == Ok(p) && RowsMatch(s.db) && !q.action.Create? && i < |p.after|
    ensures p.after[i].id !in p.texts <==> ByName(s.db, q, p, i)
  {
    hide Planned;
    PlannedMemories(s, q, x, shared, p);
    PlannedRow(s, q, x, shared, p, i);
    if p.after[i].id in p.texts {
      var j :| 0 <= j < |MemoryIds(q.action)| && MemoryIds(q.action)[j] == p.after[i].id;
      PlannedRow(s, q, x, shared, p, j);
    }
  }

  /** The memory 1, called 10, and a request to archive it that gives its name where its id belongs. */
  function ArchiveByName(): (State, Request, Context) {
    var text := Text(Memory(1, 10, 0, User, "x", [], [], [], [], [], 0, None, None, Some(Active), None, None, None, 0,
                            0));
    var row := Row(10, MemoryFile(10), Sha256(text), true, []);
    (State(Db(map[1 := row], map[], map[], {}, Some(DEFAULT_SETTINGS.(enabled := true)), map[]),
           map[MemoryFile(10) := text]),
     Request(7, 0, map[10 := Sha256(text)], Some(0), None, Archive(10, 0), 5),
     Context(Outside(2, (_, _) => 0), _ => 1, [], [], None, true))
  }

  /** The request passes all reads: the row is found by its name. */
  lemma ArchiveByNameIsPlanned()
    ensures var (s, q, x) := ArchiveByName(); var planned := Planned(s, q, x, false);
            RowsMatch(s.db) && planned.Ok? && 10 in planned.value.texts && |planned.value.after| == 1
              && planned.value.after[0].id == 1
            && planned.value.after[0].name == 10 && planned.value.texts.Keys == {10}
  {
    var (s, q, x) := ArchiveByName();
    var text := s.files[MemoryFile(10)];
    assert RowMatches(s.db, 1);
    assert (set id | id in s.db.rows && s.db.rows[id].name == 10) == {1};
    assert FindRow(s.db, 10) == Some(1);
    assert MemoryIds(q.action) == [10] && [10][..0] == [];
    assert ReadAll(s, q, [10][..0]) == Ok(map[]);
    assert ReadAll(s, q, [10]) == Ok(map[10 := text]);
  }

  /** The answer is a conflict, and the memory's file is gone. */
  lemma ArchiveByNameLosesFile()
    ensures var (s, q, x) := ArchiveByName();
            && RowsMatch(s.db) && FreshRevisions(s.files, x)
            && Mutated(s, q, x, false) == (Returned(Conflict), s.(files := map[]))
  {
    hide Planned, RowsMatch;
    var (s, q, x) := ArchiveByName();
    ArchiveByNameIsPlanned();
    assert InterruptedBy(s.db, []) == s.db && s.(db := s.db) == s;
    var p := Planned(s, q, x, false).value;
    assert Begins(p, x, 0) && Orphaned(p, x, 1, MemoryFile(10));
    assert Unwound(s.files, p, x, 1) == map[];
    assert !HashesMatch(s.db, q) by { assert 10 in q.expected && 10 !in s.db.rows; }
  }

  /** Each settings write that succeeds adds exactly one to the version, so versions only grow. */
  lemma {:induction false} VersionsOnlyGrow(db: Db, us: seq<Unlocked>)
    ensures VersionOf(InterruptedBy(db, us).settings) >= VersionOf(db.settings)
    ensures VersionOf(InterruptedBy(db, us).settings) == VersionOf(db.settings)
            ==> InterruptedBy(db, us).settings == db.settings
  {
    if us != [] { VersionsOnlyGrow(db, us[..|us| - 1]); }
  }

  /**
    An applied mutation that states a settings version was computed with exactly the settings in force at its commit,
    although settings are written without the lock in between; and outside the shared project only a restore may leave
    the version out.
   */
  lemma AppliedUsedSettingsInForce(s: State, q: Request, x: Context, shared: bool)
    requires Mutated(s, q, x, shared).0 == Returned(Applied)
    ensures q.settingsVersion.None? ==> shared || q.action.Restore?
    ensures q.settingsVersion.Some?
            ==> var used := CurrentSettings(InterruptedBy(s.db, x.before));
                used == CurrentSettings(Mutated(s, q, x, shared).1.db) && used.enabled
                  && used.version == q.settingsVersion.value
  {
    var db := InterruptedBy(s.db, x.before);
    VersionsOnlyGrow(db, x.meanwhile);
    var p := Planned(s.(db := db), q, x, shared).value;
    IndexKeepsTheRest(InterruptedBy(db, x.meanwhile), InterruptedBy(db, x.meanwhile), p, x, q, p.after);
  }

  /**
    An applied mutation saw, for exactly the memories it names, the hash it expected: of the file and of the index row.
   */
  lemma AppliedSawExpectedHashes(s: State, q: Request, x: Context, shared: bool, id: MemoryId)
    requires Mutated(s, q, x, shared).0 == Returned(Applied) && id in MemoryIds(q.action)
    ensures |q.expected| == |MemoryIds(q.action)| && id in q.expected && id in s.db.rows
    ensures s.db.rows[id].filePath in s.files
    ensures q.expected[id] == Sha256(s.files[s.db.rows[id].filePath]) == s.db.rows[id].contentHash
  {
    AppliedPassed(s, q, x, shared);
    InterruptKeepsRows(s.db, x.before);
    ReadAllIsExact(s.(db := InterruptedBy(s.db, x.before)), q, MemoryIds(q.action), id);
  }

  // ----- What an applied mutation stores -----

  ghost function FindMemory(after: seq<Memory>, id: MemoryId): (found: Option<Memory>)
    ensures found.Some? ==> found.value in after && found.value.id == id
    ensures found.None? ==> forall i :: 0 <= i < |after| ==> after[i].id != id
  {
    if after == [] then None
    else if after[|after| - 1].id == id then Some(after[|after| - 1])
    else FindMemory(after[..|after| - 1], id)
  }

  lemma {:induction false} IndexKeepsTheRest(db: Db, base: Db, p: Plan, x: Context, q: Request, after: seq<Memory>)
    ensures var t := IndexAll(db, base, p, x, q, after); t == db.(rows := t.rows, revisions := t.revisions)
  {
    if after != [] { IndexKeepsTheRest(db, base, p, x, q, after[..|after| - 1]); }
  }

  lemma {:induction false} IndexedRow(db: Db, base: Db, p: Plan, x: Context, q: Request, after: seq<Memory>,
                                      id: MemoryId)
    ensures var rows := IndexAll(db, base, p, x, q, after).rows; var found := FindMemory(after, id);
            if found.Some? then id in rows && rows[id] == RowFor(base, p.texts, found.value)
            else (id in rows <==> id in db.rows) && (id in rows ==> rows[id] == db.rows[id])
  {
    if after != [] { IndexedRow(db, base, p, x, q, after[..|after| - 1], id); }
  }

  ghost predicate NewRevision(p: Plan, x: Context, after: seq<Memory>, id: MemoryId, revision: RevisionId) {
    revision == x.revisionIds(id) && id in p.texts && FindMemory(after, id).Some?
  }

  lemma {:induction false} IndexedRevision(db: Db, base: Db, p: Plan, x: Context, q: Request, after: seq<Memory>,
                                           id: MemoryId, revision: RevisionId)
    ensures var revisions := IndexAll(db, base, p, x, q, after).revisions; var key := (id, revision);
            if NewRevision(p, x, after, id, revision) then
              && key in revisions
              && revisions[key] == RevisionRow(RevisionFile(id, revision), Sha256(p.texts[id]), q.operation)
            else
              && (key in revisions <==> key in db.revisions)
              && (key in revisions ==> revisions[key] == db.revisions[key])
  {
    if after != [] { IndexedRevision(db, base, p, x, q, after[..|after| - 1], id, revision); }
  }

  lemma {:induction false} StoredRevision(files: map<Path, Text>, db: Db, p: Plan, x: Context, after: seq<Memory>,
                                          id: MemoryId, revision: RevisionId)
    requires forall i :: i in db.rows ==> db.rows[i].filePath.MemoryFile?
    ensures At(StoreAll(files, db, p, x, after), RevisionFile(id, revision))
            == if NewRevision(p, x, after, id, revision) then Some(p.texts[id])
               else At(files, RevisionFile(id, revision))
  {
    if after != [] { StoredRevision(files, db, p, x, after[..|after| - 1], id, revision); }
  }

  /** The memory among the written ones that goes to a path. */
  ghost function FindPath(db: Db, texts: map<MemoryId, Text>, after: seq<Memory>, path: Path): (found: Option<Memory>)
    ensures found.Some? ==> found.value in after && PathOf(db, texts, found.value) == path
    ensures found.None? ==> forall i :: 0 <= i < |after| ==> PathOf(db, texts, after[i]) != path
  {
    if after == [] then None
    else if PathOf(db, texts, after[|after| - 1]) == path then Some(after[|after| - 1])
    else FindPath(db, texts, after[..|after| - 1], path)
  }

  lemma {:induction false} StoredMemory(files: map<Path, Text>, db: Db, p: Plan, x: Context, after: seq<Memory>,
                                        name: Name)
    ensures var found := FindPath(db, p.texts, after, MemoryFile(name));
            At(StoreAll(files, db, p, x, after), MemoryFile(name))
            == if found.Some? then Some(Serialize(found.value)) else At(files, MemoryFile(name))
  {
    if after != [] { StoredMemory(files, db, p, x, after[..|after| - 1], name); }
  }

  // ----- Runs -----

  /**
    The steps of a run on one project. Saves, updates and forgets are as in the service; `works` is false where their
    transaction throws.
   */
  datatype Step =
    | Mutate(q: Request, x: Context)
    | Unlock(call: Unlocked)
    | Save(m: Memory, works: bool)
    | Update(m: Memory, works: bool)
    | Forget(id: MemoryId)
    | Rename(was: Name, next: Name, now: Time, works: bool)

  ghost function PlainRow(m: Memory): Row {
    Row(m.name, MemoryFile(m.name), Sha256(Serialize(m)), IsActive(m), if IsActive(m) then m.links else [])
  }

  function Replaced(names: seq<Name>, was: Name, next: Name): (r: seq<Name>)
    ensures |r| == |names| && forall i :: 0 <= i < |r| ==> r[i] == if names[i] == was then next else names[i]
  {
    seq(|names|, i requires 0 <= i < |names| => if names[i] == was then next else names[i])
  }

  /** `renameReferenceRows`: the new name takes the old one's place, once. */
  function ReplacedOnce(links: seq<Name>, was: Name, next: Name): seq<Name> {
    if next in links then Without(links, [was]) else Replaced(links, was, next)
  }

  /** `rewriteInboundReferences` on one file: rewritten if it refers to the old name. */
  function Redirected(text: Text, was: Name, next: Name): Text {
    var m := Parse(text);
    if was in m.links || was in m.supersedes
    then Serialize(m.(links := Replaced(m.links, was, next), supersedes := Replaced(m.supersedes, was, next)))
    else text
  }

  /**
    `rename`: the memory goes to a new file, the rows and then all other files that refer to its old name are rewritten.
    Every file belongs to a row in the runs considered here, so the hash that a rewritten file gives its memory goes to
    that row.
   */
  ghost function Renamed(s: State, id: MemoryId, next: Name, now: Time): State
    requires id in s.db.rows && s.db.rows[id].filePath in s.files
  {
    var row := s.db.rows[id];
    var text := Serialize(Parse(s.files[row.filePath]).(name := next, updatedAt := now));
    var moved := s.files[MemoryFile(next) := text] - {row.filePath};
    var files := map path | path in moved ::
      if path.MemoryFile? && path != MemoryFile(next) then Redirected(moved[path], row.name, next) else moved[path];
    var rows := s.db.rows[id := row.(name := next, filePath := MemoryFile(next))];
    State(s.db.(rows := map i | i in rows ::
                  rows[i].(links := ReplacedOnce(rows[i].links, row.name, next),
                           contentHash := if rows[i].filePath in files then Sha256(files[rows[i].filePath])
                                          else rows[i].contentHash)),
          files)
  }

  ghost function After(s: State, step: Step, shared: bool): State {
    match step
    case Mutate(q, x) => Mutated(s, q, x, shared).1
    case Unlock(u) => s.(db := Interrupted(s.db, u))
    case Save(m, works) =>
      if NameInUse(s.db, m.name) then s
      else if !works then s.(files := s.files - {MemoryFile(m.name)})
      else State(s.db.(rows := s.db.rows[m.id := PlainRow(m)]), s.files[MemoryFile(m.name) := Serialize(m)])
    case Update(m, works) =>
      if m.id !in s.db.rows || s.db.rows[m.id].filePath !in s.files || !works then s
      else State(s.db.(rows := s.db.rows[m.id := PlainRow(m)]), s.files[s.db.rows[m.id].filePath := Serialize(m)])
    case Forget(id) =>
      if id !in s.db.rows then s
      else State(s.db.(rows := s.db.rows - {id},
                       revisions := map key | key in s.db.revisions && key.0 != id :: s.db.revisions[key]),
                 map path | path in s.files && path != s.db.rows[id].filePath
                   && !(path.RevisionFile? && path.id == id) :: s.files[path])
    case Rename(was, next, now, works) =>
      var found := FindRow(s.db, was);
      if found.None? || FindRow(s.db, next).Some? || s.db.rows[found.value].filePath !in s.files then s
      else if !works then s.(files := s.files - {MemoryFile(next)})
      else Renamed(s, found.value, next, now)
  }

  /** Ids are fresh, an update keeps the memory's name and creation time, and a rename gives names. */
  ghost predicate AsCalled(s: State, step: Step) {
    match step
    case Mutate(q, x) =>
      FreshRevisions(s.files, x) && (forall id :: (id, x.revisionIds(id)) !in s.db.revisions)
        && (q.action.Create? ==> x.outside.freshId !in s.db.rows)
    case Save(m, _) => m.id !in s.db.rows
    case Update(m, _) =>
      m.id in s.db.rows ==>
        m.name == s.db.rows[m.id].name && m.createdAt == s.db.rows[m.id].contentHash.text.written.createdAt
    case _ => true
  }

  /** The row's file is there, has the recorded hash, and carries the row's id and name. */
  ghost predicate RowOk(s: State, id: MemoryId) {
    id in s.db.rows ==> (var row := s.db.rows[id];
                         && row.filePath == MemoryFile(row.name)
                         && At(s.files, row.filePath) == Some(row.contentHash.text)
                         && row.contentHash.text.written.id == id && row.contentHash.text.written.name == row.name)
  }

  ghost predicate NamesDistinct(s: State) {
    forall a, b :: a in s.db.rows && b in s.db.rows && s.db.rows[a].name == s.db.rows[b].name ==> a == b
  }

  /** A revision row names a body that is there and has the recorded hash. */
  ghost predicate RevisionOk(s: State, id: MemoryId, revision: RevisionId) {
    (id, revision) in s.db.revisions ==> (var row := s.db.revisions[(id, revision)];
                                          row.contentKey == RevisionFile(id, revision)
                                            && At(s.files, RevisionFile(id, revision)) == Some(row.contentHash.text))
  }

  ghost predicate Inv(s: State) {
    && (forall id :: RowOk(s, id)) && NamesDistinct(s)
    && (forall id, revision :: RevisionOk(s, id, revision)) && FilesOwned(s)
  }

  /** Every memory file is that of a row. */
  ghost predicate FilesOwned(s: State) {
    forall name :: MemoryFile(name) in s.files ==> NameInUse(s.db, name)
  }

  /** The step loses the file of a memory that it names by its name. */
  ghost predicate Loses(s: State, step: Step, shared: bool) {
    && step.Mutate? && Mutated(s, step.q, step.x, shared).0 != Returned(Applied)
    && WritesByName(s, step.q, step.x, shared)
  }

  /** Any sequence of calls. */
  ghost predicate IsAnyRun(tr: seq<State>, steps: seq<Step>, shared: bool) {
    && |tr| == |steps| + 1 && tr[0] == State(Db(map[], map[], map[], {}, None, map[]), map[])
    && forall i :: 0 <= i < |steps| ==> AsCalled(tr[i], steps[i]) && tr[i + 1] == After(tr[i], steps[i], shared)
  }

  /** A sequence of calls that loses nothing. */
  ghost predicate IsRun(tr: seq<State>, steps: seq<Step>, shared: bool) {
    IsAnyRun(tr, steps, shared) && forall i :: 0 <= i < |steps| ==> !Loses(tr[i], steps[i], shared)
  }

  /**
    What an applied mutation has done to a state that satisfies the invariant: it read the memories its action names,
    with the hashes the index has; it wrote each under its own name, or a new one under a free name; and nothing else
    changed in the rows, the revisions and the files.
   */
  ghost predicate Applies(s: State, t: State, q: Request, x: Context, p: Plan) {
    && Inv(s) && NamesFree(s.db, p.after) && p.texts.Keys == (set id | id in MemoryIds(q.action))
    && (forall id :: id in p.texts ==> id in s.db.rows && s.db.rows[id].contentHash == Sha256(p.texts[id]))
    && (q.action.Create?
        ==> NewMemory(q.action.input.name, x.outside.freshId, p.after) && !NameInUse(s.db, q.action.input.name))
    && (!q.action.Create? ==> SameMemories(MemoryIds(q.action), MemoriesOf(p.texts), p.after))
    && Stored(s, t, q, x, p)
  }

  ghost predicate Stored(s: State, t: State, q: Request, x: Context, p: Plan) {
    var indexed := IndexAll(s.db, s.db, p, x, q, p.after);
    t.db.rows == indexed.rows && t.db.revisions == indexed.revisions
      && t.files == StoreAll(s.files, s.db, p, x, p.after)
  }

  lemma PlanNeverSaysApplied(s: State, q: Request, x: Context, shared: bool)
    requires Planned(s, q, x, shared).Err?
    ensures Planned(s, q, x, shared).error != Returned(Applied)
  {
  }

  /** What it takes for a call to be applied. */
  lemma AppliedPassed(s: State, q: Request, x: Context, shared: bool)
    requires Mutated(s, q, x, shared).0 == Returned(Applied)
    ensures var plan := Planned(s.(db := InterruptedBy(s.db, x.before)), q, x, shared);
            plan.Ok? && NamesFree(s.db, plan.value.after) && HashesMatch(s.db, q)
  {
    hide Planned;
    var db := InterruptedBy(s.db, x.before);
    if Planned(s.(db := db), q, x, shared).Err? { PlanNeverSaysApplied(s.(db := db), q, x, shared); }
    InterruptKeepsRows(s.db, x.before);
    InterruptKeepsRows(db, x.meanwhile);
  }

  lemma PlanReads(s: State, q: Request, x: Context, shared: bool, p: Plan)
    requires Planned(s, q, x, shared) == Ok(p) && HashesMatch(s.db, q)
    ensures p.texts.Keys == (set id | id in MemoryIds(q.action))
    ensures (q.action.Create? ==> !NameInUse(s.db, q.action.input.name))
    ensures forall id :: id in p.texts ==> id in s.db.rows && s.db.rows[id].contentHash == Sha256(p.texts[id])
  {
    forall id | id in p.texts ensures id in s.db.rows && s.db.rows[id].contentHash == Sha256(p.texts[id]) {
      ReadAllIsExact(s, q, MemoryIds(q.action), id);
    }
  }

  /** Rows and revisions are indexed from rows and revisions alone. */
  lemma {:induction false} IndexAllByRows(db: Db, db': Db, base: Db, base': Db, p: Plan, x: Context, q: Request,
                                          after: seq<Memory>)
    requires db.rows == db'.rows && db.revisions == db'.revisions && base.rows == base'.rows
    ensures var t, t' := IndexAll(db, base, p, x, q, after), IndexAll(db', base', p, x, q, after);
            t.rows == t'.rows && t.revisions == t'.revisions
  {
    if after != [] { IndexAllByRows(db, db', base, base', p, x, q, after[..|after| - 1]); }
  }

  lemma AppliedIsStored(s: State, q: Request, x: Context, shared: bool, p: Plan)
    requires Mutated(s, q, x, shared).0 == Returned(Applied)
    requires Planned(s.(db := InterruptedBy(s.db, x.before)), q, x, shared) == Ok(p)
    ensures Stored(s, Mutated(s, q, x, shared).1, q, x, p)
  {
    hide Planned, IndexAll, StoreAll;
    var db := InterruptedBy(s.db, x.before);
    var base := InterruptedBy(db, x.meanwhile);
    InterruptKeepsRows(s.db, x.before);
    InterruptKeepsRows(db, x.meanwhile);
    IndexAllByRows(base, s.db, base, s.db, p, x, q, p.after);
  }

  lemma AppliedPlan(s: State, q: Request, x: Context, shared: bool) returns (p: Plan)
    requires Mutated(s, q, x, shared).0 == Returned(Applied) && Inv(s)
    ensures Applies(s, Mutated(s, q, x, shared).1, q, x, p)
    ensures Planned(s.(db := InterruptedBy(s.db, x.before)), q, x, shared) == Ok(p)
  {
    hide Mutated, Planned, NamesFree, NameInUse, NamesDistinct, RevisionOk, Stored;
    var started := s.(db := InterruptedBy(s.db, x.before));
    AppliedPassed(s, q, x, shared);
    p := Planned(started, q, x, shared).value;
    AppliedIsStored(s, q, x, shared, p);
    InterruptKeepsRows(s.db, x.before);
    assert HashesMatch(s.db, q) && started.db.rows == s.db.rows;
    PlanReads(started, q, x, shared, p);
    SameRowsSameNames(s.db, started.db);
    PlannedMemories(started, q, x, shared, p);
  }

  /** The row of each memory written is the one of its new text, every other row stays. */
  lemma AppliedRow(s: State, t: State, q: Request, x: Context, p: Plan, id: MemoryId)
    requires Applies(s, t, q, x, p)
    ensures var found := FindMemory(p.after, id);
            if found.Some? then id in t.db.rows && t.db.rows[id] == RowFor(s.db, p.texts, found.value)
            else (id in t.db.rows <==> id in s.db.rows) && (id in t.db.rows ==> t.db.rows[id] == s.db.rows[id])
  {
    IndexedRow(s.db, s.db, p, x, q, p.after, id);
  }

  /** One new revision, row and body, for each memory changed, and every other revision stays. */
  lemma AppliedRevision(s: State, t: State, q: Request, x: Context, p: Plan, id: MemoryId, revision: RevisionId)
    requires Applies(s, t, q, x, p)
    ensures var key := (id, revision);
            if NewRevision(p, x, p.after, id, revision) then
              && key in t.db.revisions
              && t.db.revisions[key] == RevisionRow(RevisionFile(id, revision), Sha256(p.texts[id]), q.operation)
              && At(t.files, RevisionFile(id, revision)) == Some(p.texts[id])
            else
              && (key in t.db.revisions <==> key in s.db.revisions)
              && (key in t.db.revisions ==> t.db.revisions[key] == s.db.revisions[key])
              && At(t.files, RevisionFile(id, revision)) == At(s.files, RevisionFile(id, revision))
  {
    hide IndexAll, StoreAll, NamesDistinct, RevisionOk, NamesFree;
    IndexedRevision(s.db, s.db, p, x, q, p.after, id, revision);
    forall i | i in s.db.rows ensures s.db.rows[i].filePath.MemoryFile? { assert RowOk(s, i); }
    StoredRevision(s.files, s.db, p, x, p.after, id, revision);
  }

  lemma SameRowsSameNames(db: Db, db': Db)
    requires db.rows == db'.rows
    ensures forall name :: NameInUse(db, name) <==> NameInUse(db', name)
  {
  }

  /** Each memory that is written is an existing one under its own name, or new under a free name. */
  lemma WrittenMemory(s: State, t: State, q: Request, x: Context, p: Plan, i: nat)
    requires Applies(s, t, q, x, p) && i < |p.after|
    ensures var m := p.after[i];
            if q.action.Create? then
              m.id !in p.texts && m.id == x.outside.freshId && m.name == q.action.input.name
            else
              && m.id in MemoryIds(q.action) && m.id in p.texts && m.name == s.db.rows[m.id].name
              && m.createdAt == s.db.rows[m.id].contentHash.text.written.createdAt
    ensures !q.action.Create? ==> |p.after| == |MemoryIds(q.action)| && p.after[i].id == MemoryIds(q.action)[i]
  {
    hide Stored, NamesFree, NameInUse, NamesDistinct, RevisionOk;
    if q.action.Create? {
      assert MemoryIds(q.action) == [];
    } else {
      var id := MemoryIds(q.action)[i];
      assert KeepsIdentity(id, MemoriesOf(p.texts), p.after[i]);
      assert RowOk(s, id);
    }
  }

  lemma FoundIsWritten(s: State, t: State, q: Request, x: Context, p: Plan, m: Memory)
    requires Applies(s, t, q, x, p) && m in p.after
    ensures if q.action.Create? then
              m.id !in p.texts && m.id == x.outside.freshId && m.name == q.action.input.name
            else
              && m.id in MemoryIds(q.action) && m.id in p.texts && m.name == s.db.rows[m.id].name
              && m.createdAt == s.db.rows[m.id].contentHash.text.written.createdAt
    ensures PathOf(s.db, p.texts, m) == MemoryFile(m.name)
  {
    var i :| 0 <= i < |p.after| && p.after[i] == m;
    WrittenMemory(s, t, q, x, p, i);
    if !q.action.Create? { assert RowOk(s, m.id); }
  }

  /** The file of a written memory holds its text, and the files of the others are as they were. */
  lemma AppliedFile(s: State, t: State, q: Request, x: Context, p: Plan, name: Name)
    requires Applies(s, t, q, x, p)
    ensures (forall m :: m in p.after && m.name == name ==> At(t.files, MemoryFile(name)) == Some(Serialize(m)))
            && ((forall m :: m in p.after ==> m.name != name)
                ==> At(t.files, MemoryFile(name)) == At(s.files, MemoryFile(name)))
  {
    StoredMemory(s.files, s.db, p, x, p.after, name);
    forall m | m in p.after ensures PathOf(s.db, p.texts, m) == MemoryFile(m.name) { FoundIsWritten(s, t, q, x, p, m); }
    var found := FindPath(s.db, p.texts, p.after, MemoryFile(name));
    forall m | m in p.after && m.name == name ensures found == Some(m) {
      var i :| 0 <= i < |p.after| && p.after[i] == m;
      assert found.Some?;
      SameNameSameMemory(s, t, q, x, p, m, found.value);
    }
  }

  lemma SameNameSameMemory(s: State, t: State, q: Request, x: Context, p: Plan, m: Memory, m': Memory)
    requires Applies(s, t, q, x, p) && m in p.after && m' in p.after && (m.name == m'.name || m.id == m'.id)
    ensures m == m'
  {
    hide Stored, NamesFree, NameInUse, RevisionOk, RowOk, FilesOwned, KeepsIdentity, MemoriesOf;
    FoundIsWritten(s, t, q, x, p, m);
    FoundIsWritten(s, t, q, x, p, m');
    var i :| 0 <= i < |p.after| && p.after[i] == m;
    var j :| 0 <= j < |p.after| && p.after[j] == m';
    assert m.id == m'.id;
  }

  lemma AppliedKeepsRow(s: State, t: State, q: Request, x: Context, p: Plan, id: MemoryId)
    requires Applies(s, t, q, x, p)
    ensures RowOk(t, id)
  {
    hide Stored, RevisionOk;
    AppliedRow(s, t, q, x, p, id);
    assert RowOk(s, id);
    var found := FindMemory(p.after, id);
    if found.Some? {
      FoundIsWritten(s, t, q, x, p, found.value);
      AppliedFile(s, t, q, x, p, found.value.name);
    } else if id in t.db.rows {
      var name := s.db.rows[id].name;
      forall m | m in p.after ensures m.name != name {
        FoundIsWritten(s, t, q, x, p, m);
        var i :| 0 <= i < |p.after| && p.after[i] == m;
        assert m.id != id;
      }
      AppliedFile(s, t, q, x, p, name);
    }
  }

  lemma AppliedKeepsNames(s: State, t: State, q: Request, x: Context, p: Plan)
    requires Applies(s, t, q, x, p)
    ensures NamesDistinct(t)
  {
    forall a, b | a in t.db.rows && b in t.db.rows && t.db.rows[a].name == t.db.rows[b].name ensures a == b {
      AppliedRow(s, t, q, x, p, a);
      AppliedRow(s, t, q, x, p, b);
      var fa, fb := FindMemory(p.after, a), FindMemory(p.after, b);
      if fa.Some? { FoundIsWritten(s, t, q, x, p, fa.value); }
      if fb.Some? { FoundIsWritten(s, t, q, x, p, fb.value); }
      if fa.Some? && fb.Some? { SameNameSameMemory(s, t, q, x, p, fa.value, fb.value); }
    }
  }

  lemma AppliedKeepsFilesOwned(s: State, t: State, q: Request, x: Context, p: Plan)
    requires Applies(s, t, q, x, p) && (q.action.Create? ==> x.outside.freshId !in s.db.rows)
    ensures FilesOwned(t)
  {
    forall name | MemoryFile(name) in t.files ensures NameInUse(t.db, name) {
      if m :| m in p.after && m.name == name {
        AppliedRow(s, t, q, x, p, m.id);
        var found := FindMemory(p.after, m.id).value;
        SameNameSameMemory(s, t, q, x, p, m, found);
        assert t.db.rows[m.id].name == name;
      } else {
        AppliedFile(s, t, q, x, p, name);
        var id :| id in s.db.rows && s.db.rows[id].name == name;
        AppliedRow(s, t, q, x, p, id);
        if FindMemory(p.after, id).Some? { FoundIsWritten(s, t, q, x, p, FindMemory(p.after, id).value); }
        assert t.db.rows[id].name == name;
      }
    }
  }

  lemma InvRowsMatch(s: State)
    requires Inv(s)
    ensures RowsMatch(s.db)
  {
    forall id | id in s.db.rows ensures RowMatches(s.db, id) { assert RowOk(s, id); }
  }

  lemma MutationKeepsInv(s: State, q: Request, x: Context, shared: bool)
    requires Inv(s) && AsCalled(s, Mutate(q, x)) && !Loses(s, Mutate(q, x), shared)
    ensures Inv(Mutated(s, q, x, shared).1)
  {
    var t := Mutated(s, q, x, shared).1;
    if Mutated(s, q, x, shared).0 == Returned(Applied) {
      var p := AppliedPlan(s, q, x, shared);
      forall id ensures RowOk(t, id) { AppliedKeepsRow(s, t, q, x, p, id); }
      AppliedKeepsNames(s, t, q, x, p);
      forall id, revision ensures RevisionOk(t, id, revision) {
        AppliedRevision(s, Mutated(s, q, x, shared).1, q, x, p, id, revision);
        assert RevisionOk(s, id, revision);
      }
      AppliedKeepsFilesOwned(s, t, q, x, p);
    } else {
      InvRowsMatch(s);
      UnappliedChangesNothingIff(s, q, x, shared);
      forall id ensures RowOk(t, id) { assert RowOk(s, id); }
      forall id, revision ensures RevisionOk(t, id, revision) { assert RevisionOk(s, id, revision); }
    }
  }

  /** A call that writes a memory by its name and is not applied leaves a row without its file. */
  lemma LosingBreaksInv(s: State, q: Request, x: Context, shared: bool)
    requires Inv(s) && Loses(s, Mutate(q, x), shared)
    ensures !Inv(Mutated(s, q, x, shared).1)
  {
    hide Planned, StoreAll, IndexAll, CommitAllowed, Orphaned, Inv;
    var t := Mutated(s, q, x, shared).1;
    InvRowsMatch(s);
    UnappliedKeepsTables(s, q, x, shared);
    InterruptKeepsRows(s.db, x.before);
    var started := s.(db := InterruptedBy(s.db, x.before));
    var p := Planned(started, q, x, shared).value;
    SameRowsSameLookups(s.db, started.db, q);
    assert t.files == Unwound(s.files, p, x, |p.after|);
    OrphansAreByName(started, q, x, shared, p);
    var path :| path in s.files && Orphaned(p, x, |p.after|, path);
    var id := OwnerOfOrphan(s, p, x, path);
    if Inv(t) { InvRow(t, id); }
  }

  lemma OwnerOfOrphan(s: State, p: Plan, x: Context, path: Path) returns (id: MemoryId)
    requires Inv(s) && path in s.files && Orphaned(p, x, |p.after|, path)
    ensures id in s.db.rows && s.db.rows[id].filePath == path
  {
    var i :| 0 <= i < |p.after| && path == MemoryFile(p.after[i].name);
    assert NameInUse(s.db, p.after[i].name);
    id :| id in s.db.rows && s.db.rows[id].name == p.after[i].name;
    assert RowOk(s, id);
  }

  /** Naming every memory by its id is enough never to lose a file. */
  lemma NamesByIdNeverLoses(s: State, q: Request, x: Context, shared: bool)
    requires RowsMatch(s.db) && NamesById(s.db, q)
    ensures !Loses(s, Mutate(q, x), shared)
  {
    hide Mutated, WritesByName;
    if Mutated(s, q, x, shared).0 != Returned(Applied) {
      UnappliedChangesNothing(s, q, x, shared);
      UnappliedChangesNothingIff(s, q, x, shared);
    }
  }

  lemma PlainStepKeepsRow(s: State, step: Step, shared: bool, id: MemoryId)
    requires Inv(s) && AsCalled(s, step) && !step.Mutate? && !step.Rename?
    ensures RowOk(After(s, step, shared), id)
  {
    hide RevisionOk, FilesOwned;
    assert RowOk(s, id);
    match step
    case Save(m, _) => assert RowOk(s, m.id);
    case Update(m, _) => assert RowOk(s, m.id);
    case Forget(other) => assert RowOk(s, other);
    case _ =>
  }

  lemma PlainStepKeepsFilesOwned(s: State, step: Step, shared: bool)
    requires Inv(s) && AsCalled(s, step) && !step.Mutate? && !step.Rename?
    ensures FilesOwned(After(s, step, shared))
  {
    hide RevisionOk;
    var t := After(s, step, shared);
    forall name | MemoryFile(name) in t.files ensures NameInUse(t.db, name) {
      match step
      case Save(m, works) =>
        if works && name == m.name && t != s {
          assert m.id in t.db.rows && t.db.rows[m.id].name == name;
        } else {
          OwnerStays(s, t, name);
        }
      case Update(m, _) =>
        assert RowOk(s, m.id);
        OwnerStays(s, t, name);
      case Forget(other) =>
        assert RowOk(s, other);
        OwnerStays(s, t, name);
      case _ => OwnerStays(s, t, name);
    }
  }

  lemma OwnerStays(s: State, t: State, name: Name)
    requires FilesOwned(s) && MemoryFile(name) in s.files
    requires forall id :: id in s.db.rows && s.db.rows[id].name == name
               ==> id in t.db.rows && t.db.rows[id].name == name
    ensures NameInUse(t.db, name)
  {
    var id :| id in s.db.rows && s.db.rows[id].name == name;
    assert id in t.db.rows && t.db.rows[id].name == name;
  }

  lemma PlainStepKeepsInv(s: State, step: Step, shared: bool)
    requires Inv(s) && AsCalled(s, step) && !step.Mutate? && !step.Rename?
    ensures Inv(After(s, step, shared))
  {
    hide FilesOwned;
    var t := After(s, step, shared);
    PlainStepKeepsFilesOwned(s, step, shared);
    forall id ensures RowOk(t, id) { PlainStepKeepsRow(s, step, shared, id); }
    forall id, revision ensures RevisionOk(t, id, revision) {
      assert RevisionOk(s, id, revision);
      match step case Update(m, _) => assert RowOk(s, m.id); case Forget(other) => assert RowOk(s, other); case _ =>
    }
  }

  /** Rewriting references leaves a memory's id, name and creation time alone. */
  lemma RedirectedKeepsIdentity(text: Text, was: Name, next: Name)
    ensures var m, r := text.written, Redirected(text, was, next).written;
            r.id == m.id && r.name == m.name && r.createdAt == m.createdAt
  {
  }

  /** After a rename the memory is in the file of its new name, and every other one where it was. */
  lemma RenamedRow(s: State, id: MemoryId, next: Name, now: Time, other: MemoryId)
    requires Inv(s) && id in s.db.rows && s.db.rows[id].filePath in s.files && !NameInUse(s.db, next)
    ensures var t := Renamed(s, id, next, now);
            && RowOk(t, other) && (other in t.db.rows <==> other in s.db.rows)
            && (other in s.db.rows ==> t.db.rows[other].name == if other == id then next else s.db.rows[other].name)
            && (other in s.db.rows ==> TextOf(t, other).written.createdAt == TextOf(s, other).written.createdAt)
  {
    hide RevisionOk, FilesOwned, Redirected;
    assert RowOk(s, id) && RowOk(s, other);
    if other in s.db.rows && other != id {
      RedirectedKeepsIdentity(s.files[s.db.rows[other].filePath], s.db.rows[id].name, next);
    }
  }

  lemma RenameKeepsInv(s: State, id: MemoryId, next: Name, now: Time)
    requires Inv(s) && id in s.db.rows && s.db.rows[id].filePath in s.files && !NameInUse(s.db, next)
    ensures Inv(Renamed(s, id, next, now))
  {
    hide Renamed, FilesOwned, RevisionOk;
    var t := Renamed(s, id, next, now);
    forall other ensures RowOk(t, other) { RenamedRow(s, id, next, now, other); }
    forall a, b | a in t.db.rows && b in t.db.rows && t.db.rows[a].name == t.db.rows[b].name ensures a == b {
      RenamedRow(s, id, next, now, a);
      RenamedRow(s, id, next, now, b);
    }
    forall i, revision ensures RevisionOk(t, i, revision) { RenameKeepsRevision(s, id, next, now, i, revision); }
    RenameKeepsFilesOwned(s, id, next, now);
  }

  lemma RenameKeepsRevision(s: State, id: MemoryId, next: Name, now: Time, i: MemoryId, revision: RevisionId)
    requires Inv(s) && id in s.db.rows && s.db.rows[id].filePath in s.files
    ensures RevisionOk(Renamed(s, id, next, now), i, revision)
  {
    hide Redirected, ReplacedOnce, FilesOwned, NamesDistinct;
    assert RevisionOk(s, i, revision) && RowOk(s, id);
  }

  lemma RenameKeepsFilesOwned(s: State, id: MemoryId, next: Name, now: Time)
    requires Inv(s) && id in s.db.rows && s.db.rows[id].filePath in s.files && !NameInUse(s.db, next)
    ensures FilesOwned(Renamed(s, id, next, now))
  {
    hide RevisionOk, Redirected, ReplacedOnce;
    var t := Renamed(s, id, next, now);
    assert RowOk(s, id);
    assert id in t.db.rows && t.db.rows[id].name == next;
    forall name | MemoryFile(name) in t.files ensures NameInUse(t.db, name) {
      if name != next { OwnerStays(s, t, name); }
    }
  }

  lemma StepKeepsInv(s: State, step: Step, shared: bool)
    requires Inv(s) && AsCalled(s, step) && !Loses(s, step, shared)
    ensures Inv(After(s, step, shared))
  {
    match step
    case Mutate(q, x) => MutationKeepsInv(s, q, x, shared);
    case Rename(was, next, now, works) =>
      var found := FindRow(s.db, was);
      if found.Some? && FindRow(s.db, next).None? && s.db.rows[found.value].filePath in s.files {
        NotFoundIsFree(s, next);
        if works { RenameKeepsInv(s, found.value, next, now); } else { DroppedFileKeepsInv(s, next); }
      }
    case _ => PlainStepKeepsInv(s, step, shared);
  }

  /** A step keeps the invariant exactly if it loses nothing. */
  lemma StepKeepsInvIff(s: State, step: Step, shared: bool)
    requires Inv(s) && AsCalled(s, step)
    ensures Inv(After(s, step, shared)) <==> !Loses(s, step, shared)
  {
    hide Inv, AsCalled, Mutated, WritesByName;
    if Loses(s, step, shared) {
      LosingBreaksInv(s, step.q, step.x, shared);
    } else {
      StepKeepsInv(s, step, shared);
    }
  }

  lemma DroppedFileKeepsInv(s: State, next: Name)
    requires Inv(s) && !NameInUse(s.db, next)
    ensures Inv(s.(files := s.files - {MemoryFile(next)}))
  {
    var t := s.(files := s.files - {MemoryFile(next)});
    forall id ensures RowOk(t, id) { assert RowOk(s, id); }
    forall id, revision ensures RevisionOk(t, id, revision) { assert RevisionOk(s, id, revision); }
  }

  /** A name under which no row is found is free. */
  lemma NotFoundIsFree(s: State, next: Name)
    requires Inv(s) && FindRow(s.db, next).None?
    ensures !NameInUse(s.db, next)
  {
    if id :| id in s.db.rows && s.db.rows[id].name == next {
      var named := set i | i in s.db.rows && s.db.rows[i].name == next;
      forall i | i in named ensures i == id {}
      assert id in named && named == {id};
    }
  }

  /**
    Up to a state of any run, files, rows and revisions have been in order throughout exactly if no call lost a file.
   */
  lemma {:induction false} RunKeepsInvIff(tr: seq<State>, steps: seq<Step>, shared: bool, n: nat)
    requires IsAnyRun(tr, steps, shared) && n < |tr|
    ensures (forall i :: 0 <= i <= n ==> Inv(tr[i])) <==> forall i :: 0 <= i < n ==> !Loses(tr[i], steps[i], shared)
  {
    hide AsCalled, After, Loses, Inv;
    if n == 0 {
      EmptyIsOk(tr[0]);
    } else {
      RunKeepsInvIff(tr, steps, shared, n - 1);
      assert AsCalled(tr[n - 1], steps[n - 1]) && tr[n - 1 + 1] == After(tr[n - 1], steps[n - 1], shared);
      if Inv(tr[n - 1]) { StepKeepsInvIff(tr[n - 1], steps[n - 1], shared); }
      if forall i :: 0 <= i < n ==> !Loses(tr[i], steps[i], shared) {
        assert Inv(tr[n - 1]) && !Loses(tr[n - 1], steps[n - 1], shared);
      }
      if forall i :: 0 <= i <= n ==> Inv(tr[i]) { assert Inv(tr[n - 1]) && Inv(tr[n]); }
    }
  }

  lemma EmptyIsOk(s: State)
    requires s == State(Db(map[], map[], map[], {}, None, map[]), map[])
    ensures Inv(s)
  {
  }

  /**
    In every run each row's file and each revision body is where its row says, with the recorded hash, and names are
    distinct.
   */
  lemma {:induction false} RunKeepsInv(tr: seq<State>, steps: seq<Step>, shared: bool, n: nat)
    requires IsRun(tr, steps, shared) && n < |tr|
    ensures Inv(tr[n])
  {
    if n > 0 {
      RunKeepsInv(tr, steps, shared, n - 1);
      assert tr[n - 1 + 1] == After(tr[n - 1], steps[n - 1], shared);
      StepKeepsInv(tr[n - 1], steps[n - 1], shared);
    }
  }

  // ----- At most once -----

  lemma OperationsStay(s: State, step: Step, shared: bool, operation: OperationId)
    requires operation in s.db.operations
    ensures var t := After(s, step, shared);
            operation in t.db.operations && t.db.operations[operation] == s.db.operations[operation]
  {
    match step
    case Mutate(q, x) =>
      if Mutated(s, q, x, shared).0 == Returned(Applied) {
        AppliedRecordsOperation(s, q, x, shared);
      } else {
        UnappliedKeepsTables(s, q, x, shared);
      }
    case _ =>
  }

  lemma AppliedRecordsOperation(s: State, q: Request, x: Context, shared: bool)
    requires Mutated(s, q, x, shared).0 == Returned(Applied)
    ensures q.operation !in s.db.operations
    ensures Mutated(s, q, x, shared).1.db.operations == s.db.operations[q.operation := q.payload]
    ensures Mutated(s, q, x, shared).1.db.events == s.db.events + {q.operation}
  {
    var db := InterruptedBy(s.db, x.before);
    var base := InterruptedBy(db, x.meanwhile);
    InterruptKeepsRows(s.db, x.before);
    InterruptKeepsRows(db, x.meanwhile);
    AppliedPassed(s, q, x, shared);
    var p := Planned(s.(db := db), q, x, shared).value;
    IndexKeepsTheRest(base, base, p, x, q, p.after);
  }

  lemma {:induction false} OperationsStayForever(tr: seq<State>, steps: seq<Step>, shared: bool, i: nat, j: nat,
                                                 operation: OperationId)
    requires IsAnyRun(tr, steps, shared) && i <= j < |tr| && operation in tr[i].db.operations
    ensures operation in tr[j].db.operations && tr[j].db.operations[operation] == tr[i].db.operations[operation]
  {
    hide After, AsCalled, Loses;
    if i < j {
      OperationsStayForever(tr, steps, shared, i, j - 1, operation);
      OperationsStay(tr[j - 1], steps[j - 1], shared, operation);
      assert tr[j - 1 + 1] == After(tr[j - 1], steps[j - 1], shared);
    }
  }

  /** Once a call has applied an operation, every later call with it changes nothing and says so. */
  lemma AppliesAtMostOnce(tr: seq<State>, steps: seq<Step>, shared: bool, i: nat, j: nat)
    requires IsAnyRun(tr, steps, shared) && i < j < |steps| && steps[i].Mutate? && steps[j].Mutate?
    requires steps[i].q.operation == steps[j].q.operation
    requires Mutated(tr[i], steps[i].q, steps[i].x, shared).0 == Returned(Applied)
    ensures Mutated(tr[j], steps[j].q, steps[j].x, shared).0
            == Returned(if steps[j].q.payload == steps[i].q.payload then AlreadyApplied else Conflict)
    ensures Untouched(tr[j], tr[j + 1])
  {
    AppliedRecordsOperation(tr[i], steps[i].q, steps[i].x, shared);
    assert tr[i + 1] == After(tr[i], steps[i], shared);
    OperationsStayForever(tr, steps, shared, i + 1, j, steps[i].q.operation);
    InterruptKeepsRows(tr[j].db, steps[j].x.before);
    assert tr[j + 1] == After(tr[j], steps[j], shared);
  }

  // ----- The revision log -----

  /** The step is about the memory; a rename may rewrite any memory that refers to the old name. */
  ghost predicate Names(step: Step, id: MemoryId) {
    match step
    case Mutate(q, x) => id in MemoryIds(q.action) || (q.action.Create? && x.outside.freshId == id)
    case Unlock(_) => false
    case Save(m, _) => m.id == id
    case Update(m, _) => m.id == id
    case Forget(other) => other == id
    case Rename(_, _, _, _) => true
  }

  /** The step is about the memory and changes rows: a refused or throwing call does not. */
  ghost predicate Touches(s: State, step: Step, shared: bool, id: MemoryId) {
    Names(step, id) && After(s, step, shared).db.rows != s.db.rows
  }

  lemma UnappliedTouchesNothing(s: State, q: Request, x: Context, shared: bool, id: MemoryId)
    requires Mutated(s, q, x, shared).0 != Returned(Applied)
    ensures !Touches(s, Mutate(q, x), shared, id)
  {
    UnappliedKeepsTables(s, q, x, shared);
  }

  /** The text of an indexed memory. */
  ghost function TextOf(s: State, id: MemoryId): Text
    requires id in s.db.rows
  {
    s.db.rows[id].contentHash.text
  }

  lemma UnnamedRowStays(s: State, step: Step, shared: bool, id: MemoryId)
    requires Inv(s) && id in s.db.rows && !Names(step, id)
    ensures id in After(s, step, shared).db.rows && After(s, step, shared).db.rows[id] == s.db.rows[id]
  {
    match step
    case Mutate(q, x) =>
      if Mutated(s, q, x, shared).0 == Returned(Applied) {
        var p := AppliedPlan(s, q, x, shared);
        AppliedRow(s, Mutated(s, q, x, shared).1, q, x, p, id);
        if FindMemory(p.after, id).Some? {
          FoundIsWritten(s, Mutated(s, q, x, shared).1, q, x, p, FindMemory(p.after, id).value);
        }
      } else {
        UnappliedKeepsTables(s, q, x, shared);
      }
    case _ =>
  }

  lemma UntouchedRowStays(s: State, step: Step, shared: bool, id: MemoryId)
    requires Inv(s) && id in s.db.rows && !Touches(s, step, shared, id)
    ensures id in After(s, step, shared).db.rows && After(s, step, shared).db.rows[id] == s.db.rows[id]
  {
    hide Inv, After, Names;
    if !Names(step, id) { UnnamedRowStays(s, step, shared, id); }
  }

  lemma {:induction false} UntouchedRowStaysForever(tr: seq<State>, steps: seq<Step>, shared: bool, i: nat, j: nat,
                                                  id: MemoryId)
    requires IsRun(tr, steps, shared) && i <= j < |tr| && id in tr[i].db.rows
    requires forall k :: i <= k < j ==> !Touches(tr[k], steps[k], shared, id)
    ensures id in tr[j].db.rows && tr[j].db.rows[id] == tr[i].db.rows[id]
  {
    hide After, AsCalled, Touches, Loses;
    if i < j {
      UntouchedRowStaysForever(tr, steps, shared, i, j - 1, id);
      RunKeepsInv(tr, steps, shared, j - 1);
      UntouchedRowStays(tr[j - 1], steps[j - 1], shared, id);
      assert tr[j - 1 + 1] == After(tr[j - 1], steps[j - 1], shared);
    }
  }

  /**
    An applied mutation keeps, for each memory it changes, the text it replaces; and its new text is the one of the new
    row.
   */
  lemma AppliedKeepsOldText(s: State, q: Request, x: Context, shared: bool, id: MemoryId)
    requires Inv(s) && AsCalled(s, Mutate(q, x)) && Mutated(s, q, x, shared).0 == Returned(Applied)
    requires id in MemoryIds(q.action)
    ensures var t := Mutated(s, q, x, shared).1; var key := (id, x.revisionIds(id));
            && id in s.db.rows && key !in s.db.revisions && key in t.db.revisions
            && t.db.revisions[key].operation == q.operation
            && t.db.revisions[key].contentHash == Sha256(TextOf(s, id))
            && At(t.files, RevisionFile(id, x.revisionIds(id))) == Some(TextOf(s, id))
            && id in t.db.rows && exists m :: TextOf(t, id) == Serialize(m) && m.id == id
  {
    hide Mutated, Planned, Inv, NamesFree, NameInUse, Stored, NamesById;
    var p := AppliedPlan(s, q, x, shared);
    var i :| 0 <= i < |MemoryIds(q.action)| && MemoryIds(q.action)[i] == id;
    assert |p.after| == |MemoryIds(q.action)| by { assert !q.action.Create?; }
    WrittenMemory(s, Mutated(s, q, x, shared).1, q, x, p, i);
    AppliedRow(s, Mutated(s, q, x, shared).1, q, x, p, id);
    AppliedRevision(s, Mutated(s, q, x, shared).1, q, x, p, id, x.revisionIds(id));
    assert (id, x.revisionIds(id)) !in s.db.revisions;
    var m := FindMemory(p.after, id).value;
    assert Mutated(s, q, x, shared).1.db.rows[id].contentHash == Sha256(Serialize(m));
  }

  /**
    Between two mutations of a memory that nothing else touches in between, the second keeps exactly the text the first
    wrote. Calls about it that are refused or throw may come in between.
   */
  lemma RevisionChain(tr: seq<State>, steps: seq<Step>, shared: bool, i: nat, j: nat, id: MemoryId)
    requires IsRun(tr, steps, shared) && i < j < |steps| && steps[i].Mutate? && steps[j].Mutate?
    requires Mutated(tr[i], steps[i].q, steps[i].x, shared).0 == Returned(Applied)
    requires Mutated(tr[j], steps[j].q, steps[j].x, shared).0 == Returned(Applied)
    requires id in MemoryIds(steps[i].q.action) && id in MemoryIds(steps[j].q.action)
    requires forall k :: i < k < j ==> !Touches(tr[k], steps[k], shared, id)
    ensures id in tr[i + 1].db.rows
    ensures At(tr[i + 1].files, tr[i + 1].db.rows[id].filePath) == Some(TextOf(tr[i + 1], id))
    ensures At(tr[j + 1].files, RevisionFile(id, steps[j].x.revisionIds(id))) == Some(TextOf(tr[i + 1], id))
  {
    RunKeepsInv(tr, steps, shared, i);
    RunKeepsInv(tr, steps, shared, i + 1);
    RunKeepsInv(tr, steps, shared, j);
    assert tr[i + 1] == After(tr[i], steps[i], shared) && tr[j + 1] == After(tr[j], steps[j], shared);
    assert AsCalled(tr[i], steps[i]) && AsCalled(tr[j], steps[j]);
    AppliedKeepsOldText(tr[i], steps[i].q, steps[i].x, shared, id);
    assert RowOk(tr[i + 1], id);
    UntouchedRowStaysForever(tr, steps, shared, i + 1, j, id);
    AppliedKeepsOldText(tr[j], steps[j].q, steps[j].x, shared, id);
  }

  lemma MutationKeepsRevision(s: State, q: Request, x: Context, shared: bool, id: MemoryId, revision: RevisionId)
    requires Inv(s) && (id, revision) in s.db.revisions && revision != x.revisionIds(id)
    ensures var t := Mutated(s, q, x, shared).1;
            (id, revision) in t.db.revisions && t.db.revisions[(id, revision)] == s.db.revisions[(id, revision)]
  {
    hide Mutated, Applies, Inv;
    if Mutated(s, q, x, shared).0 == Returned(Applied) {
      var p := AppliedPlan(s, q, x, shared);
      AppliedRevision(s, Mutated(s, q, x, shared).1, q, x, p, id, revision);
    } else {
      UnappliedKeepsTables(s, q, x, shared);
    }
  }

  lemma RevisionStays(s: State, step: Step, shared: bool, id: MemoryId, revision: RevisionId)
    requires Inv(s) && AsCalled(s, step) && (id, revision) in s.db.revisions && step != Forget(id)
    ensures var t := After(s, step, shared);
            (id, revision) in t.db.revisions && t.db.revisions[(id, revision)] == s.db.revisions[(id, revision)]
  {
    hide Mutated, Inv, FindRow, NamesById;
    match step
    case Mutate(q, x) =>
      assert (id, x.revisionIds(id)) !in s.db.revisions;
      MutationKeepsRevision(s, q, x, shared, id, revision);
    case _ =>
  }

  /** A revision is kept, unchanged, until its memory is forgotten. */
  lemma {:induction false} RevisionStaysForever(tr: seq<State>, steps: seq<Step>, shared: bool, i: nat, j: nat,
                                                id: MemoryId, revision: RevisionId)
    requires IsRun(tr, steps, shared) && i <= j < |tr| && (id, revision) in tr[i].db.revisions
    requires forall k :: i <= k < j ==> steps[k] != Forget(id)
    ensures (id, revision) in tr[j].db.revisions
    ensures tr[j].db.revisions[(id, revision)] == tr[i].db.revisions[(id, revision)]
  {
    hide After, AsCalled, Loses;
    if i < j {
      RevisionStaysForever(tr, steps, shared, i, j - 1, id, revision);
      RunKeepsInv(tr, steps, shared, j - 1);
      RevisionStays(tr[j - 1], steps[j - 1], shared, id, revision);
      assert tr[j - 1 + 1] == After(tr[j - 1], steps[j - 1], shared);
    }
  }

  /** The memory is there in both states, with the same creation time. */
  ghost predicate SameOrigin(s: State, t: State, id: MemoryId) {
    id in s.db.rows && id in t.db.rows && TextOf(t, id).written.createdAt == TextOf(s, id).written.createdAt
  }

  ghost predicate SameName(s: State, t: State, id: MemoryId) {
    id in s.db.rows && id in t.db.rows && t.db.rows[id].name == s.db.rows[id].name
  }

  lemma MutationKeepsIdentity(s: State, q: Request, x: Context, shared: bool, id: MemoryId)
    requires Inv(s) && id in s.db.rows
    requires q.action.Create? ==> x.outside.freshId != id
    ensures SameOrigin(s, Mutated(s, q, x, shared).1, id) && SameName(s, Mutated(s, q, x, shared).1, id)
  {
    if Mutated(s, q, x, shared).0 == Returned(Applied) {
      hide Mutated, Planned, Inv, NamesFree;
      var p := AppliedPlan(s, q, x, shared);
      AppliedRow(s, Mutated(s, q, x, shared).1, q, x, p, id);
      if FindMemory(p.after, id).Some? {
        FoundIsWritten(s, Mutated(s, q, x, shared).1, q, x, p, FindMemory(p.after, id).value);
      }
    } else {
      UnappliedKeepsTables(s, q, x, shared);
    }
  }

  lemma RenameKeepsOrigin(s: State, step: Step, shared: bool, id: MemoryId)
    requires Inv(s) && step.Rename? && id in s.db.rows
    ensures SameOrigin(s, After(s, step, shared), id)
  {
    hide Inv, Renamed, RowOk;
    var found := FindRow(s.db, step.was);
    if found.Some? && FindRow(s.db, step.next).None? && s.db.rows[found.value].filePath in s.files && step.works {
      NotFoundIsFree(s, step.next);
      RenamedRow(s, found.value, step.next, step.now, id);
    }
  }

  lemma IdentityStays(s: State, step: Step, shared: bool, id: MemoryId)
    requires Inv(s) && AsCalled(s, step) && id in s.db.rows && step != Forget(id)
    ensures SameOrigin(s, After(s, step, shared), id)
    ensures !step.Rename? ==> SameName(s, After(s, step, shared), id)
  {
    hide Mutated, RowOk, RevisionOk, FilesOwned, Renamed;
    match step
    case Mutate(q, x) => MutationKeepsIdentity(s, q, x, shared, id);
    case Rename(_, _, _, _) => RenameKeepsOrigin(s, step, shared, id);
    case _ =>
  }

  lemma {:induction false} IdentityStaysForever(tr: seq<State>, steps: seq<Step>, shared: bool, i: nat, j: nat,
                                                id: MemoryId)
    requires IsRun(tr, steps, shared) && i <= j < |tr| && id in tr[i].db.rows
    requires forall k :: i <= k < j ==> steps[k] != Forget(id)
    ensures SameOrigin(tr[i], tr[j], id)
    ensures (forall k :: i <= k < j ==> !steps[k].Rename?) ==> SameName(tr[i], tr[j], id)
  {
    hide After, AsCalled, Loses;
    if i < j {
      IdentityStaysForever(tr, steps, shared, i, j - 1, id);
      RunKeepsInv(tr, steps, shared, j - 1);
      IdentityStays(tr[j - 1], steps[j - 1], shared, id);
      assert tr[j - 1 + 1] == After(tr[j - 1], steps[j - 1], shared);
    }
  }

  lemma RestorePlan(s: State, q: Request, x: Context, shared: bool, p: Plan, id: MemoryId, revision: RevisionId,
                    body: Text)
    requires Planned(s, q, x, shared) == Ok(p) && q.action == Restore(id, revision)
    requires ReadRevision(s, id, revision) == Some(body)
    ensures id in p.texts && p.after == [Restoring(Parse(p.texts[id]), Parse(body), q.now)]
  {
    assert MemoryIds(q.action) == [id];
    assert id in p.texts;
  }

  /** An applied restore writes the revision's content under the identity the memory has now. */
  lemma RestoredText(s: State, q: Request, x: Context, shared: bool, id: MemoryId, revision: RevisionId)
    requires Inv(s) && Mutated(s, q, x, shared).0 == Returned(Applied) && q.action == Restore(id, revision)
    requires (id, revision) in s.db.revisions
    ensures var t := Mutated(s, q, x, shared).1; var body := s.db.revisions[(id, revision)].contentHash.text;
            id in s.db.rows && id in t.db.rows
              && TextOf(t, id) == Serialize(Restoring(Parse(TextOf(s, id)), Parse(body), q.now))
  {
    hide Mutated, Planned, NamesFree, NamesDistinct;
    var started := s.(db := InterruptedBy(s.db, x.before));
    InterruptKeepsRows(s.db, x.before);
    var p := AppliedPlan(s, q, x, shared);
    var body := s.db.revisions[(id, revision)].contentHash.text;
    assert RevisionOk(s, id, revision);
    RestorePlan(started, q, x, shared, p, id, revision, body);
    var m := p.after[0];
    assert m.id == id by { assert RowOk(s, id); }
    AppliedRow(s, Mutated(s, q, x, shared).1, q, x, p, id);
    assert FindMemory(p.after, id) == Some(m);
  }

  /**
    Whatever a mutation did to a memory, archiving it included, and whatever happened to it since short of forgetting
    it: restoring the revision that mutation stored gives the memory back as it was before, under the name it has now,
    except for its lifecycle fields; and without a rename in between that name is the one it had.
   */
  lemma RestoreUndoesMutation(tr: seq<State>, steps: seq<Step>, shared: bool, i: nat, j: nat, id: MemoryId)
    requires IsRun(tr, steps, shared) && i < j < |steps| && steps[i].Mutate? && steps[j].Mutate?
    requires Mutated(tr[i], steps[i].q, steps[i].x, shared).0 == Returned(Applied) && id in MemoryIds(steps[i].q.action)
    requires Mutated(tr[j], steps[j].q, steps[j].x, shared).0 == Returned(Applied)
    requires steps[j].q.action == Restore(id, steps[i].x.revisionIds(id))
    requires forall k :: i < k < j ==> steps[k] != Forget(id)
    ensures id in tr[i].db.rows && id in tr[j + 1].db.rows
    ensures var m, r := Parse(TextOf(tr[i], id)), Parse(TextOf(tr[j + 1], id));
            && id in tr[j].db.rows && r.name == tr[j].db.rows[id].name && SameButLifecycle(m.(name := r.name), r)
            && ((forall k :: i < k < j ==> !steps[k].Rename?) ==> SameButLifecycle(m, r))
  {
    hide After, AsCalled, Mutated, Planned, Inv, Loses;
    var revision := steps[i].x.revisionIds(id);
    RunKeepsInv(tr, steps, shared, i);
    RunKeepsInv(tr, steps, shared, j);
    assert tr[i + 1] == After(tr[i], steps[i], shared) && tr[j + 1] == After(tr[j], steps[j], shared);
    assert AsCalled(tr[i], steps[i]);
    MutateIs(tr[i], steps[i], shared);
    MutateIs(tr[j], steps[j], shared);
    AppliedKeepsOldText(tr[i], steps[i].q, steps[i].x, shared, id);
    IdentityStaysForever(tr, steps, shared, i, j, id);
    RevisionStaysForever(tr, steps, shared, i + 1, j, id, revision);
    RestoredText(tr[j], steps[j].q, steps[j].x, shared, id, revision);
    InvRow(tr[i], id);
    InvRow(tr[j], id);
    var m := Parse(TextOf(tr[i], id));
    ParsedIsNormal(TextOf(tr[i], id));
    ParseSerialize(Restoring(Parse(TextOf(tr[j], id)), m, steps[j].q.now));
  }

  lemma MutateIs(s: State, step: Step, shared: bool)
    requires step.Mutate?
    ensures After(s, step, shared) == Mutated(s, step.q, step.x, shared).1
  {
    hide Mutated;
  }

  lemma InvRow(s: State, id: MemoryId)
    requires Inv(s)
    ensures RowOk(s, id)
  {
  }
}
