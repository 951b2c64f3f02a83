/**
  The Firestore metadata of one project: memory records, the name index and tombstones. Each operation is a
  document transaction: a function on the documents, and the method of the store that performs it.
 */
module MetadataStore {
  import opened Base

  type MemoryId = int
  type Name = int
  type OperationId = int
  type RevisionId = int

  /** A parsed memory; `rest` stands for the columns that no operation here looks at. */
  datatype Memory = Memory(id: MemoryId, name: Name, links: seq<Name>, active: bool, rest: int)

  /** A Markdown text, identified with the memory it carries. */
  datatype Text = Text(memory: Memory)

  /** sha256, taken to be injective. */
  datatype Hash = Sha256(text: Text)

  /** Object keys of the project: a memory object is addressed by name and hash, a revision body by its ids. */
  datatype Key = MemoryObject(name: Name, hash: Hash) | RevisionObject(id: MemoryId, revision: RevisionId)

  datatype Record = Record(id: MemoryId, name: Name, contentKey: Key, contentHash: Hash, links: seq<Name>, active: bool,
                           rest: int)

  datatype NameEntry = NameEntry(memoryId: MemoryId, name: Name, contentKey: Key, contentHash: Hash)

  datatype Tombstone = Tombstone(memoryId: MemoryId, contentKey: Key, deletedAt: int)

  datatype Pointer = Pointer(contentKey: Key, contentHash: Hash)

  /** `rest` stands for the settings that no operation here looks at. */
  datatype Settings = Settings(enabled: bool, version: nat, rest: int)

  datatype Action = Create | Restore | PruneLinks(memoryId: MemoryId, names: seq<Name>) | OtherAction

  datatype Commit = Commit(operation: OperationId, payload: int, settingsVersion: Option<nat>, maxActive: Option<int>,
                           action: Action, now: int,
                           before: seq<(MemoryId, Hash)>)

  datatype Outcome = Applied | AlreadyApplied | Conflict

  datatype Failure = ProjectNotFound | NameTaken | RevisionMoved | RestoreConflict | RecordsMismatch

  /** All documents of the project. The revision is absent until the project document exists. */
  datatype Meta = Meta(shared: bool, revision: Option<nat>, memories: map<MemoryId, Record>,
                       names: map<Name, NameEntry>, tombstones: map<Key, Tombstone>, settings: Option<Settings>,
                       observations: map<(MemoryId, Name), int>, operations: map<OperationId, int>)

  const GRACE_MS := 30 * 24 * 60 * 60 * 1000

  function EntryOf(r: Record): NameEntry { NameEntry(r.id, r.name, r.contentKey, r.contentHash) }

  function PointerOf(r: Record): Pointer { Pointer(r.contentKey, r.contentHash) }

  // ----- Building blocks of the transactions -----

  predicate Writable(m: Meta) { m.shared || m.revision.Some? }

  function RevisionOf(m: Meta): nat { if m.revision.Some? then m.revision.value else 0 }

  function Bumped(m: Meta): Meta { m.(revision := Some(RevisionOf(m) + 1)) }

  function BumpedIfPresent(m: Meta): Meta { if m.revision.Some? then Bumped(m) else m }

  /** The memory document and the name document of one record. */
  function SetRecord(m: Meta, r: Record): Meta {
    m.(memories := m.memories[r.id := r], names := m.names[r.name := EntryOf(r)])
  }

  function SetAll(m: Meta, records: seq<Record>): Meta {
    if records == [] then m else SetRecord(SetAll(m, records[..|records| - 1]), records[|records| - 1])
  }

  function BuryAll(m: Meta, tombs: seq<Tombstone>): Meta {
    if tombs == [] then m
    else
      var t := tombs[|tombs| - 1];
      var rest := BuryAll(m, tombs[..|tombs| - 1]);
      rest.(tombstones := rest.tombstones[t.contentKey := t])
  }

  function UnburyAll(m: Meta, tombs: seq<Tombstone>): Meta {
    if tombs == [] then m
    else
      var rest := UnburyAll(m, tombs[..|tombs| - 1]);
      rest.(tombstones := rest.tombstones - {tombs[|tombs| - 1].contentKey})
  }

  /** Another memory holds the name. */
  predicate NameTakenBy(names: map<Name, NameEntry>, r: Record) {
    r.name in names && names[r.name].memoryId != r.id
  }

  predicate SomeNameTaken(names: map<Name, NameEntry>, records: seq<Record>) {
    exists i :: 0 <= i < |records| && NameTakenBy(names, records[i])
  }

  /** The record with a given id; a later one wins, as in a map built from the list. */
  function Find(records: seq<Record>, id: MemoryId): (found: Option<Record>)
    ensures found.Some? ==> found.value in records && found.value.id == id
    ensures found.None? ==> forall i :: 0 <= i < |records| ==> records[i].id != id
  {
    if records == [] then None
    else if records[|records| - 1].id == id then Some(records[|records| - 1])
    else Find(records[..|records| - 1], id)
  }

  // ----- The transactions -----

  function Put(m: Meta, r: Record, expectedRevision: Option<nat>): Result<Meta, Failure> {
    if !Writable(m) then Err(ProjectNotFound)
    else if expectedRevision.Some? && RevisionOf(m) != expectedRevision.value then Err(RevisionMoved)
    else if NameTakenBy(m.names, r) then Err(NameTaken)
    else Ok(Bumped(SetRecord(m, r)))
  }

  function Remove(m: Meta, id: MemoryId, expected: Pointer): Meta {
    if id !in m.memories || PointerOf(m.memories[id]) != expected then m
    else
      var name := m.memories[id].name;
      var mine := name in m.names && m.names[name].memoryId == id
                  && m.names[name].contentKey == expected.contentKey
                  && m.names[name].contentHash == expected.contentHash;
      BumpedIfPresent(m.(names := if mine then m.names - {name} else m.names, memories := m.memories - {id}))
  }

  function RestoreOne(m: Meta, r: Record, expected: Pointer): Result<Meta, Failure> {
    if r.id !in m.memories then
      if r.contentKey !in m.tombstones then Ok(m)
      else if m.tombstones[r.contentKey].memoryId != r.id
             || m.tombstones[r.contentKey].contentKey != r.contentKey then Ok(m)
      else if NameTakenBy(m.names, r) then Err(NameTaken)
      else
        var stored := SetRecord(m, r);
        Ok(BumpedIfPresent(stored.(tombstones := stored.tombstones - {r.contentKey})))
    else
      var current := m.memories[r.id];
      if PointerOf(current) != expected then Ok(m)
      else if NameTakenBy(m.names, r) then Err(NameTaken)
      else
        var mine := current.name != r.name && current.name in m.names && m.names[current.name].memoryId == r.id
                    && m.names[current.name].contentKey == expected.contentKey
                    && m.names[current.name].contentHash == expected.contentHash;
        Ok(BumpedIfPresent(SetRecord(m.(names := if mine then m.names - {current.name} else m.names), r)))
  }

  /** The record is stored, and indexed under its name, with exactly its content. */
  predicate StillCurrent(m: Meta, r: Record) {
    && r.id in m.memories && PointerOf(m.memories[r.id]) == PointerOf(r)
    && r.name in m.names && m.names[r.name].memoryId == r.id
    && m.names[r.name].contentKey == r.contentKey && m.names[r.name].contentHash == r.contentHash
  }

  /** The deletions of `restoreMemoryIndexes`. */
  function DropCurrent(m: Meta, previous: seq<Record>, current: seq<Record>): Meta {
    if current == [] then m
    else
      var rest := DropCurrent(m, previous, current[..|current| - 1]);
      var r := current[|current| - 1];
      var found := Find(previous, r.id);
      if found.None? then rest.(memories := rest.memories - {r.id}, names := rest.names - {r.name})
      else if found.value.name != r.name then rest.(names := rest.names - {r.name})
      else rest
  }

  function RestoreAll(m: Meta, previous: seq<Record>, current: seq<Record>,
                      tombs: seq<Tombstone>): Result<Meta, Failure> {
    if exists i :: 0 <= i < |current| && !StillCurrent(m, current[i]) then Err(RestoreConflict)
    else if SomeNameTaken(m.names, previous) then Err(NameTaken)
    else Ok(BumpedIfPresent(UnburyAll(SetAll(DropCurrent(m, previous, current), previous), tombs)))
  }

  predicate HasName(records: seq<Record>, name: Name) {
    exists i :: 0 <= i < |records| && records[i].name == name
  }

  function Replace(m: Meta, oldName: Name, records: seq<Record>, tombs: seq<Tombstone>): Result<Meta, Failure> {
    if !Writable(m) then Err(ProjectNotFound)
    else if SomeNameTaken(m.names, records) then Err(NameTaken)
    else
      var dropped := if HasName(records, oldName) then m else m.(names := m.names - {oldName});
      Ok(Bumped(BuryAll(SetAll(dropped, records), tombs)))
  }

  function Delete(m: Meta, id: MemoryId, tomb: Tombstone): Meta {
    m.(tombstones := m.tombstones[tomb.contentKey := tomb],
    memories := m.memories - {id},
    names := if id in m.memories then m.names - {m.memories[id].name} else m.names)
  }

  // ----- commitMemoryMutation -----

  function ActiveIds(m: Meta): set<MemoryId> { set id | id in m.memories && m.memories[id].active }

  /**
    The recorded settings allow the mutation: enabled at the expected version, or none asked for where that is allowed.
   */
  predicate SettingsAllow(m: Meta, c: Commit) {
    if c.settingsVersion.Some? then m.settings.Some? && m.settings.value.enabled
                                 && m.settings.value.version == c.settingsVersion.value
    else m.shared || c.action.Restore?
  }

  predicate CapAllows(m: Meta, c: Commit) {
    c.maxActive.Some? ==> m.shared && c.action.Create? && c.maxActive.value >= 1 && |ActiveIds(m)| < c.maxActive.value
  }

  predicate HashesMatch(m: Meta, before: seq<(MemoryId, Hash)>) {
    forall i :: 0 <= i < |before| ==> before[i].0 in m.memories && m.memories[before[i].0].contentHash == before[i].1
  }

  /** The memory is one whose hash the mutation expects. */
  predicate IsNamed(before: seq<(MemoryId, Hash)>, id: MemoryId) {
    exists i :: 0 <= i < |before| && before[i].0 == id
  }

  predicate MayPrune(m: Meta, c: Commit, id: MemoryId, name: Name) {
    && IsNamed(c.before, id) && id in m.memories && name in m.memories[id].links && name !in m.names
    && (id, name) in m.observations && c.now - m.observations[(id, name)] >= GRACE_MS
  }

  predicate PruneAllowed(m: Meta, c: Commit) {
    c.action.PruneLinks? ==> forall i :: 0 <= i < |c.action.names|
                               ==> MayPrune(m, c, c.action.memoryId, c.action.names[i])
  }

  predicate Allowed(m: Meta, c: Commit, records: seq<Record>) {
    SettingsAllow(m, c) && CapAllows(m, c) && HashesMatch(m, c.before) && PruneAllowed(m, c)
      && !SomeNameTaken(m.names, records)
  }

  /** Renamed memories give up the names they held when the transaction began. */
  function DropRenamed(m: Meta, before: seq<(MemoryId, Hash)>, records: seq<Record>): map<Name, NameEntry> {
    if before == [] then m.names
    else
      var rest := DropRenamed(m, before[..|before| - 1], records);
      var id := before[|before| - 1].0;
      var next := Find(records, id);
      if id in m.memories && next.Some? && m.memories[id].name != next.value.name
         && m.memories[id].name in m.names && m.names[m.memories[id].name].memoryId == id
      then rest - {m.memories[id].name} else rest
  }

  /** Two records of the list are the same memory's. */
  predicate RepeatsId(records: seq<Record>) {
    exists i, j :: 0 <= i < j < |records| && records[i].id == records[j].id
  }

  function Committed(m: Meta, c: Commit, records: seq<Record>): (Result<Outcome, Failure>, Meta) {
    if RepeatsId(records) then (Err(RecordsMismatch), m)
    else if c.operation in m.operations then
      (Ok(if m.operations[c.operation] == c.payload then AlreadyApplied else Conflict), m)
    else if !Writable(m) then (Err(ProjectNotFound), m)
    else if !Allowed(m, c, records) then (Ok(Conflict), m)
    else
      var stored := SetAll(m.(names := DropRenamed(m, c.before, records)), records);
      (Ok(Applied), Bumped(stored.(operations := stored.operations[c.operation := c.payload])))
  }

  // ----- The store -----

  class FirestoreMetadataStore {
    const shared: bool
    var revision: Option<nat>
    var memories: map<MemoryId, Record>
    var names: map<Name, NameEntry>
    var tombstones: map<Key, Tombstone>
    var settings: Option<Settings>
    var observations: map<(MemoryId, Name), int>
    var operations: map<OperationId, int>

    ghost function State(): Meta
      reads this
    {
      Meta(shared, revision, memories, names, tombstones, settings, observations, operations)
    }

    constructor (shared: bool)
      ensures State() == Meta(shared, None, map[], map[], map[], None, map[], map[])
    {
      this.shared := shared;
      revision, memories, names, tombstones, settings, observations, operations :=
        None, map[], map[], map[], None, map[], map[];
    }

    method Set(r: Record)
      modifies this
      ensures State() == SetRecord(old(State()), r)
    {
      memories := memories[r.id := r];
      names := names[r.name := EntryOf(r)];
    }

    method Bump()
      modifies this
      ensures State() == Bumped(old(State()))
    {
      revision := Some((if revision.Some? then revision.value else 0) + 1);
    }

    /** A transaction that throws has written nothing. */
    method PutMemoryIndex(r: Record, expectedRevision: Option<nat>) returns (thrown: Option<Failure>)
      modifies this
      ensures Put(old(State()), r, expectedRevision) == if thrown.Some? then Err(thrown.value) else Ok(State())
      ensures thrown.Some? ==> State() == old(State())
    {
      if !shared && revision.None? { return Some(ProjectNotFound); }
      if expectedRevision.Some? && (if revision.Some? then revision.value else 0) != expectedRevision.value {
        return Some(RevisionMoved);
      }
      if r.name in names && names[r.name].memoryId != r.id { return Some(NameTaken); }
      Set(r);
      Bump();
      thrown := None;
    }

    method RemoveMemoryIndex(id: MemoryId, expected: Pointer)
      modifies this
      ensures State() == Remove(old(State()), id, expected)
    {
      if id !in memories { return; }
      var current := memories[id];
      if current.contentKey != expected.contentKey || current.contentHash != expected.contentHash { return; }
      if current.name in names {
        var entry := names[current.name];
        if entry.memoryId == id && entry.contentKey == expected.contentKey
          && entry.contentHash == expected.contentHash {
          names := names - {current.name};
        }
      }
      memories := memories - {id};
      if revision.Some? { Bump(); }
    }

    method RestoreMemoryIndex(r: Record, expected: Pointer) returns (thrown: Option<Failure>)
      modifies this
      ensures RestoreOne(old(State()), r, expected) == if thrown.Some? then Err(thrown.value) else Ok(State())
      ensures thrown.Some? ==> State() == old(State())
    {
      thrown := None;
      if r.id !in memories {
        if r.contentKey !in tombstones { return; }
        if tombstones[r.contentKey].memoryId != r.id || tombstones[r.contentKey].contentKey != r.contentKey { return; }
        if r.name in names && names[r.name].memoryId != r.id { return Some(NameTaken); }
        Set(r);
        tombstones := tombstones - {r.contentKey};
        if revision.Some? { Bump(); }
        return;
      }
      var current := memories[r.id];
      if current.contentKey != expected.contentKey || current.contentHash != expected.contentHash { return; }
      if r.name in names && names[r.name].memoryId != r.id { return Some(NameTaken); }
      if current.name != r.name && current.name in names {
        var entry := names[current.name];
        if entry.memoryId == r.id && entry.contentKey == expected.contentKey
          && entry.contentHash == expected.contentHash {
          names := names - {current.name};
        }
      }
      Set(r);
      if revision.Some? { Bump(); }
    }

    method SetRecords(records: seq<Record>)
      modifies this
      ensures State() == SetAll(old(State()), records)
    {
      for i := 0 to |records|
        invariant State() == SetAll(old(State()), records[..i])
      {
        Set(records[i]);
        assert records[..i + 1][..i] == records[..i];
      }
      assert records[..|records|] == records;
    }

    method AllStillCurrent(current: seq<Record>) returns (still: bool)
      ensures still <==> forall i :: 0 <= i < |current| ==> StillCurrent(State(), current[i])
    {
      for i := 0 to |current|
        invariant forall j :: 0 <= j < i ==> StillCurrent(State(), current[j])
      {
        var r := current[i];
        if r.id !in memories || memories[r.id].contentKey != r.contentKey
          || memories[r.id].contentHash != r.contentHash {
          return false;
        }
        if r.name !in names || names[r.name].memoryId != r.id || names[r.name].contentKey != r.contentKey
          || names[r.name].contentHash != r.contentHash {
          return false;
        }
      }
      still := true;
    }

    method RestoreMemoryIndexes(previous: seq<Record>, current: seq<Record>, tombs: seq<Tombstone>)
      returns (thrown: Option<Failure>)
      modifies this
      ensures RestoreAll(old(State()), previous, current, tombs)
              == if thrown.Some? then Err(thrown.value) else Ok(State())
      ensures thrown.Some? ==> State() == old(State())
    {
      var still := AllStillCurrent(current);
      if !still { return Some(RestoreConflict); }
      var taken := AnyNameTaken(previous);
      if taken { return Some(NameTaken); }
      for i := 0 to |current|
        invariant State() == DropCurrent(old(State()), previous, current[..i])
      {
        var r := current[i];
        var found := Find(previous, r.id);
        if found.None? {
          memories := memories - {r.id};
          names := names - {r.name};
        } else if found.value.name != r.name {
          names := names - {r.name};
        }
        assert current[..i + 1][..i] == current[..i];
      }
      assert current[..|current|] == current;
      SetRecords(previous);
      ghost var stored := State();
      for i := 0 to |tombs|
        invariant State() == UnburyAll(stored, tombs[..i])
      {
        tombstones := tombstones - {tombs[i].contentKey};
        assert tombs[..i + 1][..i] == tombs[..i];
      }
      assert tombs[..|tombs|] == tombs;
      if revision.Some? { Bump(); }
      thrown := None;
    }

    method AnyNameTaken(records: seq<Record>) returns (taken: bool)
      ensures taken <==> SomeNameTaken(names, records)
    {
      for i := 0 to |records|
        invariant forall j :: 0 <= j < i ==> !NameTakenBy(names, records[j])
      {
        if records[i].name in names && names[records[i].name].memoryId != records[i].id { return true; }
      }
      taken := false;
    }

    method ReplaceMemoryIndexes(oldName: Name, records: seq<Record>, tombs: seq<Tombstone>)
      returns (thrown: Option<Failure>)
      modifies this
      ensures Replace(old(State()), oldName, records, tombs) == if thrown.Some? then Err(thrown.value) else Ok(State())
      ensures thrown.Some? ==> State() == old(State())
    {
      if !shared && revision.None? { return Some(ProjectNotFound); }
      var taken := AnyNameTaken(records);
      if taken { return Some(NameTaken); }
      if !HasName(records, oldName) { names := names - {oldName}; }
      SetRecords(records);
      ghost var stored := State();
      for i := 0 to |tombs|
        invariant State() == BuryAll(stored, tombs[..i])
      {
        tombstones := tombstones[tombs[i].contentKey := tombs[i]];
        assert tombs[..i + 1][..i] == tombs[..i];
      }
      assert tombs[..|tombs|] == tombs;
      Bump();
      thrown := None;
    }

    method DeleteMemoryIndex(id: MemoryId, tomb: Tombstone)
      modifies this
      ensures State() == Delete(old(State()), id, tomb)
    {
      var document := if id in memories then Some(memories[id]) else None;
      tombstones := tombstones[tomb.contentKey := tomb];
      memories := memories - {id};
      if document.Some? { names := names - {document.value.name}; }
    }

    method SettingsAndCapAllow(c: Commit) returns (allowed: bool)
      ensures allowed <==> SettingsAllow(State(), c) && CapAllows(State(), c)
    {
      if c.settingsVersion.Some? {
        if settings.None? || !settings.value.enabled || settings.value.version != c.settingsVersion.value {
          return false;
        }
      } else if !shared && !c.action.Restore? {
        return false;
      }
      if c.maxActive.Some? {
        if !shared || !c.action.Create? || c.maxActive.value < 1 { return false; }
        if |set id | id in memories && memories[id].active| >= c.maxActive.value { return false; }
      }
      allowed := true;
    }

    /** The reads of the commit transaction. */
    method CommitAllowed(c: Commit, records: seq<Record>) returns (allowed: bool)
      ensures allowed <==> Allowed(State(), c, records)
    {
      hide SettingsAllow, CapAllows, SomeNameTaken;
      ghost var m := State();
      var settled := SettingsAndCapAllow(c);
      if !settled { return false; }
      for i := 0 to |c.before|
        invariant forall j :: 0 <= j < i
                    ==> c.before[j].0 in m.memories && m.memories[c.before[j].0].contentHash == c.before[j].1
      {
        if c.before[i].0 !in memories || memories[c.before[i].0].contentHash != c.before[i].1 { return false; }
      }
      assert HashesMatch(m, c.before);
      if c.action.PruneLinks? {
        for i := 0 to |c.action.names|
          invariant forall j :: 0 <= j < i ==> MayPrune(m, c, c.action.memoryId, c.action.names[j])
        {
          var id, name := c.action.memoryId, c.action.names[i];
          if !IsNamed(c.before, id) || id !in memories || name !in memories[id].links || name in names
            || (id, name) !in observations
             || c.now - observations[(id, name)] < GRACE_MS {
            return false;
          }
        }
      }
      assert PruneAllowed(m, c);
      var taken := AnyNameTaken(records);
      allowed := !taken;
    }

    method CommitMemoryMutation(c: Commit, records: seq<Record>) returns (outcome: Result<Outcome, Failure>)
      modifies this
      ensures (outcome, State()) == Committed(old(State()), c, records)
      ensures outcome != Ok(Applied) ==> State() == old(State())
    {
      if RepeatsId(records) { return Err(RecordsMismatch); }
      if c.operation in operations {
        return Ok(if operations[c.operation] == c.payload then AlreadyApplied else Conflict);
      }
      if !shared && revision.None? { return Err(ProjectNotFound); }
      ghost var m := State();
      var allowed := CommitAllowed(c, records);
      if !allowed { return Ok(Conflict); }
      hide Allowed;
      var index := names;
      for i := 0 to |c.before|
        invariant State() == m.(names := DropRenamed(m, c.before[..i], records)) && index == m.names
      {
        var id := c.before[i].0;
        var next := Find(records, id);
        if id in memories && next.Some? && memories[id].name != next.value.name
           && memories[id].name in index && index[memories[id].name].memoryId == id {
          names := names - {memories[id].name};
        }
        assert c.before[..i + 1][..i] == c.before[..i];
      }
      assert c.before[..|c.before|] == c.before;
      SetRecords(records);
      operations := operations[c.operation := c.payload];
      Bump();
      outcome := Ok(Applied);
    }
  }
}
