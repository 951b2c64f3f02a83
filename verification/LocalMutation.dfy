/**
  Local mutations: the service writes the files, the maintenance store commits one database transaction, and any other
  exit puts the files back. `Mutated` says what a whole call does; `MemoryService.ApplyMutation` does it step by step.
 */
module LocalMutation {
  import opened Base
  import opened Markdown
  import opened Mutations

  type OperationId = int

  datatype Path = MemoryFile(name: Name) | RevisionFile(id: MemoryId, revision: RevisionId)

  /** A row of `memories` with its rows in `links`, which only an active memory has. */
  datatype Row = Row(name: Name, filePath: Path, contentHash: Hash, active: bool, links: seq<Name>)

  datatype RevisionRow = RevisionRow(contentKey: Path, contentHash: Hash, operation: OperationId)

  datatype Db = Db(rows: map<MemoryId, Row>, revisions: map<(MemoryId, RevisionId), RevisionRow>,
                   operations: map<OperationId, int>,
                   events: set<OperationId>, settings: Option<Settings>, observations: map<(MemoryId, Name), Time>)

  datatype State = State(db: Db, files: map<Path, Text>)

  datatype Request = Request(operation: OperationId, payload: int, expected: map<MemoryId, Hash>,
                             settingsVersion: Option<nat>, maxActive: Option<int>,
                             action: Action, now: Time)

  datatype Outcome = Applied | AlreadyApplied | Conflict

  datatype Ending = Returned(outcome: Outcome) | Threw

  const GRACE_MS := 30 * DAY_MS

  // ----- What may happen between two awaits of a mutation -----

  /** The maintenance store's calls that do not take the project lock. */
  datatype Unlocked =
    | SaveSettings(enabled: bool, days: ReviewDays, expectedVersion: nat)
    | ObserveLink(memory: MemoryId, name: Name, at: Time)
    | ClearObservation(memory: MemoryId, name: Name)

  function VersionOf(settings: Option<Settings>): nat { if settings.Some? then settings.value.version else 0 }

  /** `getSettings`. */
  function CurrentSettings(db: Db): Settings { if db.settings.Some? then db.settings.value else DEFAULT_SETTINGS }

  function Interrupted(db: Db, u: Unlocked): Db {
    match u
    case SaveSettings(enabled, days, expected) =>
      if VersionOf(db.settings) != expected then db else db.(settings := Some(Settings(enabled, days, expected + 1)))
    case ObserveLink(id, name, at) =>
      if (id, name) in db.observations then db else db.(observations := db.observations[(id, name) := at])
    case ClearObservation(id, name) => db.(observations := db.observations - {(id, name)})
  }

  function InterruptedBy(db: Db, us: seq<Unlocked>): Db {
    if us == [] then db else Interrupted(InterruptedBy(db, us[..|us| - 1]), us[|us| - 1])
  }

  /** Fresh ids, what the unlocked calls do before and after the settings are read, and what fails. */
  datatype Context = Context(outside: Outside, revisionIds: MemoryId -> RevisionId, before: seq<Unlocked>,
                             meanwhile: seq<Unlocked>,
                             failingWrite: Option<nat>, indexUp: bool)

  // ----- Reading -----

  /**
    `selectRow`: a row is found by its memory's id or name. The two never coincide: ids are upper-case and names
    lower-case, and within a project names are unique.
   */
  function FindRow(db: Db, key: MemoryId): (found: Option<MemoryId>)
    ensures found.Some?
            ==> found.value in db.rows && (found.value == key || (key !in db.rows && db.rows[found.value].name == key))
    ensures key in db.rows ==> found == Some(key)
  {
    if key in db.rows then Some(key)
    else
      var named := set id | id in db.rows && db.rows[id].name == key;
      if exists id :: id in named && named == {id} then
        var id :| id in named && named == {id};
        Some(id)
      else None
  }

  /** The texts of the memories of the mutation, in order, each checked against the expected hash and the index. */
  function ReadAll(s: State, q: Request, ids: seq<MemoryId>): (r: Result<map<MemoryId, Text>, Ending>)
    ensures r.Ok? ==> r.value.Keys == set id | id in ids
    ensures r.Err? ==> r.error != Returned(Applied)
  {
    if ids == [] then Ok(map[])
    else
      var n := |ids| - 1;
      assert ids == ids[..n] + [ids[n]];
      var rest := ReadAll(s, q, ids[..n]);
      if rest.Err? then rest
      else
        var found := FindRow(s.db, ids[n]);
        if found.None? then Err(if q.action.Restore? then Threw else Returned(Conflict))
        else
          var row := s.db.rows[found.value];
          if row.filePath !in s.files then Err(Threw)
          else
            var text := s.files[row.filePath];
            if ids[n] !in q.expected || q.expected[ids[n]] != Sha256(text)
              || row.contentHash != Sha256(text) then Err(Returned(Conflict))
            else Ok(rest.value[ids[n] := text])
  }

  /** `readRevision`: the body, if its row and file are there and agree. */
  function ReadRevision(s: State, id: MemoryId, revision: RevisionId): Option<Text> {
    if (id, revision) !in s.db.revisions then None
    else
      var row := s.db.revisions[(id, revision)];
      if row.contentKey !in s.files || Sha256(s.files[row.contentKey]) != row.contentHash then None
        else Some(s.files[row.contentKey])
  }

  predicate NameInUse(db: Db, name: Name) { exists id :: id in db.rows && db.rows[id].name == name }

  function MemoriesOf(texts: map<MemoryId, Text>): map<MemoryId, Memory> { map id | id in texts :: Parse(texts[id]) }

  /** What a mutation goes on with once everything has been read. */
  datatype Plan = Plan(texts: map<MemoryId, Text>, after: seq<Memory>)

  predicate SettingsFit(settings: Settings, q: Request, shared: bool) {
    if q.settingsVersion.Some? then settings.version == q.settingsVersion.value && settings.enabled
    else shared || q.action.Restore?
  }

  function Planned(s: State, q: Request, x: Context, shared: bool): Result<Plan, Ending> {
    if q.operation in s.db.operations
      then Err(Returned(if s.db.operations[q.operation] == q.payload then AlreadyApplied else Conflict))
    else
      var ids := MemoryIds(q.action);
      var texts := ReadAll(s, q, ids);
      if texts.Err? then Err(texts.error)
      else if |q.expected| != |ids| then Err(Returned(Conflict))
      else
        var revision := if q.action.Restore? then ReadRevision(s, q.action.memoryId, q.action.revision) else None;
        if q.action.Restore? && revision.None? then Err(Threw)
        else if q.action.Create?
               && (NameInUse(s.db, q.action.input.name) || MemoryFile(q.action.input.name) in s.files)
                  then Err(Returned(Conflict))
        else if !SettingsFit(CurrentSettings(s.db), q, shared) then Err(Returned(Conflict))
        else
          var after := Prepare(q.action, q.now, MemoriesOf(texts.value), CurrentSettings(s.db),
                               if revision.Some? then Some(Parse(revision.value)) else None, x.outside);
          if after.None? then Err(Threw) else Ok(Plan(texts.value, after.value))
  }

  // ----- Writing -----

  /** Where a memory is written: the file of its row, or a new one. */
  function PathOf(db: Db, texts: map<MemoryId, Text>, m: Memory): Path {
    if m.id in texts && m.id in db.rows then db.rows[m.id].filePath else MemoryFile(m.name)
  }

  function StoreOne(files: map<Path, Text>, db: Db, p: Plan, x: Context, m: Memory): map<Path, Text> {
    var kept := if m.id in p.texts then files[RevisionFile(m.id, x.revisionIds(m.id)) := p.texts[m.id]] else files;
    kept[PathOf(db, p.texts, m) := Serialize(m)]
  }

  function StoreAll(files: map<Path, Text>, db: Db, p: Plan, x: Context, after: seq<Memory>): map<Path, Text> {
    if after == [] then files
    else StoreOne(StoreAll(files, db, p, x, after[..|after| - 1]), db, p, x, after[|after| - 1])
  }

  /** How many files the write loop writes. */
  function Writes(texts: map<MemoryId, Text>, after: seq<Memory>): nat {
    if after == [] then 0
    else Writes(texts, after[..|after| - 1]) + if after[|after| - 1].id in texts then 2 else 1
  }

  /** The write loop gets as far as the i-th memory. */
  predicate Begins(p: Plan, x: Context, i: nat)
    requires i <= |p.after|
  {
    x.failingWrite.None? || Writes(p.texts, p.after[..i]) <= x.failingWrite.value
  }

  /**
    One of the first n memories goes to the file although it was not read under its own id; the rollback will take the
    file for a new one.
   */
  predicate Orphaned(p: Plan, x: Context, n: nat, path: Path)
    requires n <= |p.after|
  {
    exists i :: 0 <= i < n && p.after[i].id !in p.texts && path == MemoryFile(p.after[i].name) && Begins(p, x, i)
  }

  /** The files after the rollback of the first n rounds of the write loop. */
  function Unwound(files: map<Path, Text>, p: Plan, x: Context, n: nat): map<Path, Text>
    requires n <= |p.after|
  {
    map path | path in files && !Orphaned(p, x, n, path) :: files[path]
  }

  // ----- Committing -----

  function ActiveIds(db: Db): set<MemoryId> { set id | id in db.rows && db.rows[id].active }

  predicate CapAllows(db: Db, q: Request, shared: bool) {
    q.maxActive.Some? ==> shared && q.action.Create? && q.maxActive.value >= 1 && |ActiveIds(db)| < q.maxActive.value
  }

  predicate HashesMatch(db: Db, q: Request) {
    forall id :: id in q.expected ==> id in db.rows && db.rows[id].contentHash == q.expected[id]
  }

  predicate MayPrune(db: Db, id: MemoryId, name: Name, now: Time) {
    && id in db.rows && name in db.rows[id].links && !NameInUse(db, name)
    && (id, name) in db.observations && now - db.observations[(id, name)] >= GRACE_MS
  }

  predicate NamesFree(db: Db, after: seq<Memory>) {
    forall i, id :: 0 <= i < |after| && id in db.rows && db.rows[id].name == after[i].name ==> id == after[i].id
  }

  predicate CommitAllowed(db: Db, q: Request, after: seq<Memory>, shared: bool) {
    && (if q.settingsVersion.Some? then db.settings.Some? && db.settings.value.enabled
                                     && db.settings.value.version == q.settingsVersion.value
        else shared || q.action.Restore?)
    && CapAllows(db, q, shared) && HashesMatch(db, q)
    && (q.action.PruneLinks? ==> forall i :: 0 <= i < |q.action.names|
                                   ==> MayPrune(db, q.action.memoryId, q.action.names[i], q.now))
    && NamesFree(db, after)
  }

  function RowFor(db: Db, texts: map<MemoryId, Text>, m: Memory): Row {
    Row(m.name, PathOf(db, texts, m), Sha256(Serialize(m)), IsActive(m), if IsActive(m) then m.links else [])
  }

  /** The index update and the revision row of one memory. */
  function IndexOne(db: Db, base: Db, p: Plan, x: Context, q: Request, m: Memory): Db {
    var rowed := db.(rows := db.rows[m.id := RowFor(base, p.texts, m)]);
    if m.id !in p.texts then rowed
    else
      var path := RevisionFile(m.id, x.revisionIds(m.id));
      rowed.(revisions :=
             rowed.revisions[(m.id, x.revisionIds(m.id)) := RevisionRow(path, Sha256(p.texts[m.id]), q.operation)])
  }

  function IndexAll(db: Db, base: Db, p: Plan, x: Context, q: Request, after: seq<Memory>): Db {
    if after == [] then db
      else IndexOne(IndexAll(db, base, p, x, q, after[..|after| - 1]), base, p, x, q, after[|after| - 1])
  }

  function Committed(db: Db, p: Plan, x: Context, q: Request): Db {
    var indexed := IndexAll(db, db, p, x, q, p.after);
    indexed.(events := indexed.events + {q.operation}, operations := indexed.operations[q.operation := q.payload])
  }

  /** A whole call: all of the mutation happens, or nothing of it but the files that the rollback takes for new ones. */
  function Mutated(s: State, q: Request, x: Context, shared: bool): (Ending, State) {
    var started := s.(db := InterruptedBy(s.db, x.before));
    var plan := Planned(started, q, x, shared);
    if plan.Err? then (plan.error, started)
    else
      var p := plan.value;
      var interrupted := started.(db := InterruptedBy(started.db, x.meanwhile));
      var unwound := interrupted.(files := Unwound(s.files, p, x, |p.after|));
      if x.failingWrite.Some? && x.failingWrite.value < Writes(p.texts, p.after) then (Threw, unwound)
      else if !CommitAllowed(interrupted.db, q, p.after, shared) then (Returned(Conflict), unwound)
      else if !x.indexUp then (Threw, unwound)
      else (Returned(Applied), State(Committed(interrupted.db, p, x, q), StoreAll(s.files, s.db, p, x, p.after)))
  }

  // ----- The service -----

  /** A file the write loop has touched, with what it held before. */
  datatype Touched = Touched(path: Path, previous: Option<Text>)

  ghost function At(files: map<Path, Text>, path: Path): Option<Text> {
    if path in files then Some(files[path]) else None
  }

  /**
    The files differ from the ones to go back to only where `touched` and `revisions` say, and `touched` says what goes
    there.
   */
  ghost predicate Tracked(files: map<Path, Text>, original: map<Path, Text>, touched: seq<Touched>,
                          revisions: seq<Path>) {
    && (forall i :: 0 <= i < |touched| ==> touched[i].previous == At(original, touched[i].path))
    && (forall i :: 0 <= i < |revisions| ==> revisions[i] !in original)
    && forall path ::
         At(files, path) == At(original, path) || path in revisions
         || exists i :: 0 <= i < |touched| && touched[i].path == path
  }

  /**
    The index was made from the texts: the hash of a row is of a text with that row's id and name, kept in the file of
    that name.
   */
  ghost predicate RowMatches(db: Db, id: MemoryId)
    requires id in db.rows
  {
    var row := db.rows[id];
    row.contentHash.text.written.id == id && row.contentHash.text.written.name == row.name
      && row.filePath == MemoryFile(row.name)
  }

  ghost predicate RowsMatch(db: Db) {
    && (forall id :: id in db.rows ==> RowMatches(db, id))
    && forall a, b :: a in db.rows && b in db.rows && db.rows[a].name == db.rows[b].name ==> a == b
  }

  ghost predicate FreshRevisions(files: map<Path, Text>, x: Context) {
    forall id :: RevisionFile(id, x.revisionIds(id)) !in files
  }

  class MemoryService {
    const shared: bool
    var db: Db
    var files: map<Path, Text>

    constructor (shared: bool)
      ensures this.shared == shared && Now() == State(Db(map[], map[], map[], {}, None, map[]), map[])
    {
      this.shared := shared;
      db, files := Db(map[], map[], map[], {}, None, map[]), map[];
    }

    ghost function Now(): State
      reads this
    {
      State(db, files)
    }

    method Interrupt(us: seq<Unlocked>)
      modifies this`db
      ensures db == InterruptedBy(old(db), us)
    {
      for i := 0 to |us|
        invariant db == InterruptedBy(old(db), us[..i])
      {
        db := Interrupted(db, us[i]);
        assert us[..i + 1][..i] == us[..i];
      }
      assert us[..|us|] == us;
    }

    /**
      One round of the write loop. `touched` gets its entry before the file is written, so a failing write is rolled
      back too. A memory that was not read under its own id is taken for a new one: its entry says there was no file.
     */
    method WriteOne(p: Plan, x: Context, i: nat, done: nat, touched: seq<Touched>, revisions: seq<Path>,
                    ghost goal: map<Path, Text>)
      returns (ok: bool, touched': seq<Touched>, revisions': seq<Path>)
      requires Tracked(files, goal, touched, revisions) && FreshRevisions(goal, x)
      requires PathsDistinct(db, p) && Follows(db, p, touched) && |touched| == i < |p.after|
      requires ReadAtHome(State(db, goal), p, p.after[i])
      requires x.failingWrite.Some? ==> done <= x.failingWrite.value
      modifies this`files
      ensures Tracked(files, Kept(goal, p, p.after[i]), touched', revisions')
      ensures ok
              <==> !(x.failingWrite.Some? && x.failingWrite.value < done + (if p.after[i].id in p.texts then 2 else 1))
      ensures ok ==> files == StoreOne(old(files), db, p, x, p.after[i])
      ensures ok ==> Follows(db, p, touched') && |touched'| == i + 1
    {
      hide Tracked;
      var m := p.after[i];
      touched', revisions' := touched, revisions;
      var writes := done;
      if m.id in p.texts {
        if x.failingWrite == Some(writes) { return false, touched', revisions'; }
        var revision := RevisionFile(m.id, x.revisionIds(m.id));
        TrackRevision(files, goal, touched', revisions', revision, p.texts[m.id]);
        files := files[revision := p.texts[m.id]];
        revisions' := revisions' + [revision];
        writes := writes + 1;
      }
      var path := PathOf(db, p.texts, m);
      if m.id in p.texts {
        TrackFile(files, goal, touched', revisions', path, Serialize(m));
      } else {
        TrackOrphan(files, goal, touched', revisions', path, Serialize(m));
      }
      touched' := touched' + [Touched(path, if m.id in p.texts then Some(p.texts[m.id]) else None)];
      if x.failingWrite == Some(writes) { return false, touched', revisions'; }
      files := files[path := Serialize(m)];
      ok := true;
    }

    /** The write loop. */
    method WriteFiles(p: Plan, x: Context) returns (ok: bool, touched: seq<Touched>, revisions: seq<Path>)
      requires FreshRevisions(files, x) && PathsDistinct(db, p)
      requires forall i :: 0 <= i < |p.after| ==> ReadAtHome(State(db, files), p, p.after[i])
      modifies this`files
      ensures Tracked(files, Unwound(old(files), p, x, |p.after|), touched, revisions)
      ensures ok <==> !(x.failingWrite.Some? && x.failingWrite.value < Writes(p.texts, p.after))
      ensures ok ==> files == StoreAll(old(files), db, p, x, p.after)
    {
      ok, touched, revisions := true, [], [];
      assert Follows(db, p, []);
      assert Unwound(files, p, x, 0) == files;
      assert Tracked(files, files, [], []) && Writes(p.texts, p.after[..0]) == 0
        && StoreAll(files, db, p, x, p.after[..0]) == files;
      hide Tracked, Unwound, Orphaned, Writes, StoreAll, StoreOne, PathOf, Follows, PathsDistinct, Kept, FreshRevisions;
      for i := 0 to |p.after|
        invariant ok && Tracked(files, Unwound(old(files), p, x, i), touched, revisions)
        invariant |touched| == i && Follows(db, p, touched)
        invariant !(x.failingWrite.Some? && x.failingWrite.value < Writes(p.texts, p.after[..i]))
        invariant files == StoreAll(old(files), db, p, x, p.after[..i])
      {
        WritesGrow(p.texts, p.after, i);
        StoreAllMore(old(files), db, p, x, i);
        UnwoundMore(db, old(files), p, x, i);
        ok, touched, revisions :=
          WriteOne(p, x, i, Writes(p.texts, p.after[..i]), touched, revisions, Unwound(old(files), p, x, i));
        if !ok {
          UnwoundAsFarAs(old(files), p, x, i + 1);
          return;
        }
      }
      assert p.after[..|p.after|] == p.after;
    }

    /** `rollbackMutationFiles`. */
    method RollBack(touched: seq<Touched>, revisions: seq<Path>, ghost original: map<Path, Text>)
      requires Tracked(files, original, touched, revisions)
      modifies this`files
      ensures files == original
    {
      for i := 0 to |touched|
        invariant Tracked(files, original, touched[i..], revisions)
      {
        if touched[i].previous.None? {
          files := files - {touched[i].path};
        } else {
          files := files[touched[i].path := touched[i].previous.value];
        }
        assert touched[i..] == [touched[i]] + touched[i + 1..];
      }
      assert touched[|touched|..] == [];
      for i := 0 to |revisions|
        invariant Tracked(files, original, [], revisions[i..])
      {
        files := files - {revisions[i]};
        assert revisions[i..] == [revisions[i]] + revisions[i + 1..];
      }
      assert forall path :: At(files, path) == At(original, path);
      assert forall path :: path in files <==> path in original by {
        forall path ensures path in files <==> path in original { assert At(files, path) == At(original, path); }
      }
      assert forall path :: path in files ==> files[path] == original[path] by {
        forall path | path in files
          ensures files[path] == original[path]
        {
          assert At(files, path) == At(original, path);
        }
      }
    }

    /** `applyMutation` under the project lock. */
    method ApplyMutation(q: Request, x: Context) returns (ending: Ending)
      requires FreshRevisions(files, x) && RowsMatch(db)
      modifies this
      ensures (ending, Now()) == Mutated(old(Now()), q, x, shared)
    {
      Interrupt(x.before);
      var plan := Planned(State(db, files), q, x, shared);
      if plan.Err? { return plan.error; }
      var p := plan.value;
      InterruptKeepsRows(old(db), x.before);
      PlanIsSafe(Now(), q, x, shared, p);
      var ok, touched, revisions := WriteFiles(p, x);
      InterruptKeepsRows(db, x.meanwhile);
      StoreAllByRows(old(files), old(db), db, p, x, p.after);
      Interrupt(x.meanwhile);
      ghost var goal := Unwound(old(files), p, x, |p.after|);
      if !ok {
        RollBack(touched, revisions, goal);
        return Threw;
      }
      if !CommitAllowed(db, q, p.after, shared) {
        RollBack(touched, revisions, goal);
        return Returned(Conflict);
      }
      if !x.indexUp {
        RollBack(touched, revisions, goal);
        return Threw;
      }
      db := Committed(db, p, x, q);
      ending := Returned(Applied);
    }
  }

  /** Noting a file before writing it keeps track of it, whether the write then happens or not. */
  lemma TrackFile(files: map<Path, Text>, original: map<Path, Text>, touched: seq<Touched>, revisions: seq<Path>,
                  path: Path, text: Text)
    requires Tracked(files, original, touched, revisions)
    ensures Tracked(files, original, touched + [Touched(path, At(original, path))], revisions)
    ensures Tracked(files[path := text], original, touched + [Touched(path, At(original, path))], revisions)
  {
    var more := touched + [Touched(path, At(original, path))];
    assert more[|touched|].path == path;
    forall i | 0 <= i < |touched| ensures more[i].path == touched[i].path {}
  }

  /** Noting a file as new means that the rollback will remove it. */
  lemma TrackOrphan(files: map<Path, Text>, original: map<Path, Text>, touched: seq<Touched>, revisions: seq<Path>,
                    path: Path, text: Text)
    requires Tracked(files, original, touched, revisions) && forall i :: 0 <= i < |touched| ==> touched[i].path != path
    ensures Tracked(files, original - {path}, touched + [Touched(path, None)], revisions)
    ensures Tracked(files[path := text], original - {path}, touched + [Touched(path, None)], revisions)
  {
    var more := touched + [Touched(path, None)];
    assert more[|touched|].path == path;
    forall i | 0 <= i < |touched| ensures more[i].path == touched[i].path {}
  }

  /** A prepared memory that was read under its own id has a row, and what was read is what its file holds. */
  ghost predicate ReadAtHome(s: State, p: Plan, m: Memory) {
    && (m.id in p.texts ==> m.id in s.db.rows && At(s.files, s.db.rows[m.id].filePath) == Some(p.texts[m.id]))
    && PathOf(s.db, p.texts, m) == MemoryFile(m.name)
  }

  ghost predicate PathsDistinct(db: Db, p: Plan) {
    forall i, j :: 0 <= i < j < |p.after| ==> PathOf(db, p.texts, p.after[i]) != PathOf(db, p.texts, p.after[j])
  }

  /** The touched files so far are those of the first memories. */
  ghost predicate Follows(db: Db, p: Plan, touched: seq<Touched>) {
    |touched| <= |p.after| && forall j :: 0 <= j < |touched| ==> touched[j].path == PathOf(db, p.texts, p.after[j])
  }

  /** Without the file of a memory that the rollback takes for a new one. */
  ghost function Kept(files: map<Path, Text>, p: Plan, m: Memory): map<Path, Text> {
    if m.id in p.texts then files else files - {MemoryFile(m.name)}
  }

  /** One more round of the write loop adds at most its own file to what the rollback removes. */
  lemma UnwoundMore(db: Db, files: map<Path, Text>, p: Plan, x: Context, i: nat)
    requires i < |p.after| && Begins(p, x, i) && PathsDistinct(db, p)
    requires forall j :: 0 <= j < |p.after| ==> ReadAtHome(State(db, files), p, p.after[j])
    ensures var m := p.after[i];
            Unwound(files, p, x, i + 1) == Kept(Unwound(files, p, x, i), p, m)
    ensures ReadAtHome(State(db, files), p, p.after[i])
            ==> ReadAtHome(State(db, Unwound(files, p, x, i)), p, p.after[i])
    ensures FreshRevisions(files, x) ==> FreshRevisions(Unwound(files, p, x, i), x)
  {
    var m := p.after[i];
    forall path
      ensures Orphaned(p, x, i + 1, path)
              <==> Orphaned(p, x, i, path) || (m.id !in p.texts && path == MemoryFile(m.name))
    {
    }
    assert !Orphaned(p, x, i, MemoryFile(m.name)) by {
      forall j | 0 <= j < i ensures MemoryFile(p.after[j].name) != MemoryFile(m.name) {
        assert PathOf(db, p.texts, p.after[j]) != PathOf(db, p.texts, m);
        assert ReadAtHome(State(db, files), p, p.after[j]) && ReadAtHome(State(db, files), p, m);
      }
    }
  }

  /** Rounds that the write loop does not get to orphan nothing. */
  lemma UnwoundAsFarAs(files: map<Path, Text>, p: Plan, x: Context, n: nat)
    requires n <= |p.after| && x.failingWrite.Some? && x.failingWrite.value < Writes(p.texts, p.after[..n])
    ensures Unwound(files, p, x, |p.after|) == Unwound(files, p, x, n)
  {
    forall i | n <= i < |p.after| ensures !Begins(p, x, i) { WritesMonotone(p.texts, p.after, n, i); }
  }

  lemma {:induction false} WritesMonotone(texts: map<MemoryId, Text>, after: seq<Memory>, n: nat, i: nat)
    requires n <= i <= |after|
    ensures Writes(texts, after[..n]) <= Writes(texts, after[..i])
  {
    hide Writes;
    if n < i {
      WritesMonotone(texts, after, n, i - 1);
      WritesGrow(texts, after, i - 1);
    }
  }

  lemma TrackRevision(files: map<Path, Text>, original: map<Path, Text>, touched: seq<Touched>, revisions: seq<Path>,
                      path: Path, text: Text)
    requires Tracked(files, original, touched, revisions) && path !in original
    ensures Tracked(files[path := text], original, touched, revisions + [path])
  {
    assert path in revisions + [path];
  }

  lemma {:induction false} WritesGrow(texts: map<MemoryId, Text>, after: seq<Memory>, i: nat)
    requires i < |after|
    ensures Writes(texts, after[..i + 1]) == Writes(texts, after[..i]) + if after[i].id in texts then 2 else 1
    ensures Writes(texts, after[..i + 1]) <= Writes(texts, after)
    decreases |after| - i
  {
    assert after[..i + 1][..i] == after[..i];
    if i + 1 < |after| {
      WritesGrow(texts, after, i + 1);
    } else {
      assert after[..i + 1] == after;
    }
  }

  lemma {:induction false} InterruptKeepsRows(db: Db, us: seq<Unlocked>)
    ensures var t := InterruptedBy(db, us); t == db.(settings := t.settings, observations := t.observations)
  {
    if us != [] { InterruptKeepsRows(db, us[..|us| - 1]); }
  }

  lemma StoreAllMore(files: map<Path, Text>, db: Db, p: Plan, x: Context, i: nat)
    requires i < |p.after|
    ensures StoreAll(files, db, p, x, p.after[..i + 1])
            == StoreOne(StoreAll(files, db, p, x, p.after[..i]), db, p, x, p.after[i])
  {
    assert p.after[..i + 1][..i] == p.after[..i];
  }

  /** The paths written depend only on the rows, which the unlocked calls leave alone. */
  lemma {:induction false} StoreAllByRows(files: map<Path, Text>, db: Db, db': Db, p: Plan, x: Context,
                                          after: seq<Memory>)
    requires db.rows == db'.rows
    ensures StoreAll(files, db, p, x, after) == StoreAll(files, db', p, x, after)
  {
    if after != [] { StoreAllByRows(files, db, db', p, x, after[..|after| - 1]); }
  }

  /**
    What is read for a key is the text of the row found for it, in its file, with the expected and the recorded hash.
   */
  lemma {:induction false} ReadAllIsExact(s: State, q: Request, ids: seq<MemoryId>, id: MemoryId)
    requires ReadAll(s, q, ids).Ok? && id in ids
    ensures var texts, found := ReadAll(s, q, ids).value, FindRow(s.db, id);
            && found.Some? && At(s.files, s.db.rows[found.value].filePath) == Some(texts[id])
            && s.db.rows[found.value].contentHash == Sha256(texts[id]) && id in q.expected
            && q.expected[id] == Sha256(texts[id])
  {
    var n := |ids| - 1;
    assert ids == ids[..n] + [ids[n]];
    if id != ids[n] { ReadAllIsExact(s, q, ids[..n], id); }
  }

  /** A plan holds the memories its action names, or the one it creates. */
  lemma PlannedMemories(s: State, q: Request, x: Context, shared: bool, p: Plan)
    requires Planned(s, q, x, shared) == Ok(p)
    ensures p.texts.Keys == set id | id in MemoryIds(q.action)
    ensures q.action.Create?
            ==> NewMemory(q.action.input.name, x.outside.freshId, p.after)
                && MemoryFile(q.action.input.name) !in s.files
    ensures !q.action.Create? ==> SameMemories(MemoryIds(q.action), MemoriesOf(p.texts), p.after)
  {
    var restored := if q.action.Restore? then ReadRevision(s, q.action.memoryId, q.action.revision) else None;
    PreparedMemories(q.action, q.now, MemoriesOf(p.texts), CurrentSettings(s.db),
                     if restored.Some? then Some(Parse(restored.value)) else None, x.outside);
  }

  /** The i-th prepared memory is the one of the row found for the i-th key, under that row's id and name. */
  lemma PlannedRow(s: State, q: Request, x: Context, shared: bool, p: Plan, i: nat)
    requires Planned(s, q, x, shared) == Ok(p) && RowsMatch(s.db) && !q.action.Create? && i < |p.after|
    ensures |p.after| == |MemoryIds(q.action)|
    ensures var key, m := MemoryIds(q.action)[i], p.after[i];
            var row := s.db.rows;
            && FindRow(s.db, key) == Some(m.id) && m.name == row[m.id].name && row[m.id].filePath == MemoryFile(m.name)
            && key in p.texts && At(s.files, MemoryFile(m.name)) == Some(p.texts[key])
            && row[m.id].contentHash == Sha256(p.texts[key])
  {
    PlannedMemories(s, q, x, shared, p);
    var key := MemoryIds(q.action)[i];
    assert KeepsIdentity(key, MemoriesOf(p.texts), p.after[i]);
    ReadAllIsExact(s, q, MemoryIds(q.action), key);
    assert RowMatches(s.db, FindRow(s.db, key).value);
  }

  /** What a plan has read under a memory's own id is what its file holds, and no two of its memories share a file. */
  lemma PlanIsSafe(s: State, q: Request, x: Context, shared: bool, p: Plan)
    requires Planned(s, q, x, shared) == Ok(p) && RowsMatch(s.db)
    ensures forall i :: 0 <= i < |p.after| ==> ReadAtHome(s, p, p.after[i])
    ensures PathsDistinct(s.db, p)
  {
    hide Planned;
    PlannedMemories(s, q, x, shared, p);
    if q.action.Create? {
      assert MemoryIds(q.action) == [];
    } else {
      forall i | 0 <= i < |p.after| ensures ReadAtHome(s, p, p.after[i]) {
        PlannedRow(s, q, x, shared, p, i);
        if p.after[i].id in p.texts {
          var j :| 0 <= j < |MemoryIds(q.action)| && MemoryIds(q.action)[j] == p.after[i].id;
          PlannedRow(s, q, x, shared, p, j);
        }
      }
      forall i, j | 0 <= i < j < |p.after|
        ensures PathOf(s.db, p.texts, p.after[i]) != PathOf(s.db, p.texts, p.after[j])
      {
        PlannedRow(s, q, x, shared, p, i);
        PlannedRow(s, q, x, shared, p, j);
      }
    }
  }
}
