/**
  What each metadata transaction decides and writes, told from the documents before it and its arguments alone, and
  that a commit used the settings in force although settings are written in between.
 */
module MetadataLaws {
  import opened Base
  import opened MetadataStore
  import opened MetadataInvariants

  // ----- commitMemoryMutation -----

  /**
    The settings recorded are enabled at the very version stated; only a shared project or a restore may state none.
   */
  predicate StatedSettingsHold(shared: bool, settings: Option<Settings>, stated: Option<nat>, action: Action) {
    match stated
    case Some(version) => settings.Some? && settings.value.enabled && settings.value.version == version
    case None => shared || action == Restore
  }

  /** A dead link of a memory the mutation names: no memory has the name, and it was first seen missing 30 days ago. */
  ghost predicate DeadLink(m: Meta, c: Commit, id: MemoryId, name: Name) {
    && (exists i :: 0 <= i < |c.before| && c.before[i].0 == id)
    && id in m.memories && name in m.memories[id].links && name !in m.names
    && (id, name) in m.observations && m.observations[(id, name)] + 2_592_000_000 <= c.now
  }

  lemma PruneAllowedIff(m: Meta, c: Commit)
    ensures PruneAllowed(m, c)
            <==> (c.action.PruneLinks? ==> forall name <- c.action.names :: DeadLink(m, c, c.action.memoryId, name))
  {
    if c.action.PruneLinks? {
      var id := c.action.memoryId;
      assert forall name :: MayPrune(m, c, id, name) <==> DeadLink(m, c, id, name);
      if PruneAllowed(m, c) {
        forall name | name in c.action.names ensures DeadLink(m, c, id, name) {
          var i :| 0 <= i < |c.action.names| && c.action.names[i] == name;
          assert MayPrune(m, c, id, c.action.names[i]);
        }
      }
    }
  }

  lemma SomeNameTakenIff(names: map<Name, NameEntry>, records: seq<Record>)
    ensures SomeNameTaken(names, records)
            <==> !forall r <- records :: r.name in names ==> names[r.name].memoryId == r.id
  {
    if SomeNameTaken(names, records) {
      var i :| 0 <= i < |records| && NameTakenBy(names, records[i]);
      assert records[i] in records;
    }
    if r :| r in records && NameTakenBy(names, r) {
      var i :| 0 <= i < |records| && records[i] == r;
      assert NameTakenBy(names, records[i]);
    }
  }

  /** A commit takes effect exactly if it is new, its records are different memories', and everything it says holds. */
  lemma CommitAppliedIff(m: Meta, c: Commit, records: seq<Record>)
    ensures Committed(m, c, records).0 == Ok(Applied)
            <==> && (forall i, j :: 0 <= i < j < |records| ==> records[i].id != records[j].id)
                 && c.operation !in m.operations
                 && (m.shared || m.revision.Some?)
                 && StatedSettingsHold(m.shared, m.settings, c.settingsVersion, c.action)
                 && (c.maxActive.Some?
                     ==> m.shared && c.action == Create && c.maxActive.value >= 1
                         && |set id | id in m.memories && m.memories[id].active| < c.maxActive.value)
                 && (forall i :: 0 <= i < |c.before|
                       ==> c.before[i].0 in m.memories && m.memories[c.before[i].0].contentHash == c.before[i].1)
                 && (c.action.PruneLinks?
                     ==> forall name <- c.action.names :: DeadLink(m, c, c.action.memoryId, name))
                 && forall r <- records :: r.name in m.names ==> m.names[r.name].memoryId == r.id
  {
    PruneAllowedIff(m, c);
    SomeNameTakenIff(m.names, records);
    hide PruneAllowed, SomeNameTaken, DeadLink;
  }

  /** The other answers of a commit, which write nothing. */
  lemma CommitAnswers(m: Meta, c: Commit, records: seq<Record>)
    ensures var (answer, s) := Committed(m, c, records);
            var distinct := forall i, j :: 0 <= i < j < |records| ==> records[i].id != records[j].id;
            && (answer == Err(RecordsMismatch) <==> !distinct)
            && (answer == Ok(AlreadyApplied)
                <==> distinct && c.operation in m.operations && m.operations[c.operation] == c.payload)
            && (distinct && c.operation in m.operations && m.operations[c.operation] != c.payload
                ==> answer == Ok(Conflict))
            && (answer == Err(ProjectNotFound)
                <==> distinct && c.operation !in m.operations && !m.shared && m.revision.None?)
            && (answer == Ok(Applied) || answer == Ok(AlreadyApplied) || answer == Ok(Conflict)
                || answer == Err(RecordsMismatch) || answer == Err(ProjectNotFound))
            && (answer != Ok(Applied) ==> s == m)
  {
    hide Allowed;
  }

  /** The memory gives up the name in the commit: it holds it, the commit names it, and its record has another name. */
  ghost predicate GaveUp(m: Meta, c: Commit, records: seq<Record>, name: Name) {
    && name in m.names && m.names[name].memoryId in m.memories && m.memories[m.names[name].memoryId].name == name
    && (exists i :: 0 <= i < |c.before| && c.before[i].0 == m.names[name].memoryId)
    && exists r <- records :: r.id == m.names[name].memoryId && r.name != name
  }

  /**
    The documents after an applied commit: each record under its id and its name, the names given up gone, the operation
    with its payload, the next revision, and everything else as it was.
   */
  lemma CommitWrites(m: Meta, c: Commit, records: seq<Record>)
    requires Committed(m, c, records).0 == Ok(Applied)
    ensures var s := Committed(m, c, records).1;
            && (forall r <- records :: r.id in s.memories && s.memories[r.id] == r)
            && (forall id :: (forall r <- records :: r.id != id)
                  ==> (id in s.memories <==> id in m.memories)
                      && (id in m.memories ==> s.memories[id] == m.memories[id]))
            && (forall i :: 0 <= i < |records| && LastOfName(records, i)
                  ==> records[i].name in s.names
                      && s.names[records[i].name]
                         == NameEntry(records[i].id, records[i].name, records[i].contentKey, records[i].contentHash))
            && (forall name :: (forall r <- records :: r.name != name)
                  ==> (name in s.names <==> name in m.names && !GaveUp(m, c, records, name))
                      && (name in s.names ==> s.names[name] == m.names[name]))
            && s.operations == m.operations[c.operation := c.payload]
            && s.revision == Some((if m.revision.Some? then m.revision.value else 0) + 1)
            && s.shared == m.shared && s.tombstones == m.tombstones && s.settings == m.settings
            && s.observations == m.observations
  {
    var base := m.(names := DropRenamed(m, c.before, records));
    SetAllMemory(base, records, 0);
    SetAllIs(base, records);
    forall name ensures name in base.names <==> name in m.names && !GaveUp(m, c, records, name)
                ensures name in base.names ==> base.names[name] == m.names[name]
    {
      DropRenamedIs(m, c.before, records, name);
      GaveUpIff(m, c, records, name);
    }
  }

  /** No later record of the list has the name. */
  ghost predicate LastOfName(records: seq<Record>, i: nat)
    requires i < |records|
  {
    forall j :: i < j < |records| ==> records[j].name != records[i].name
  }

  lemma {:induction false} FindLastName(records: seq<Record>, i: nat)
    requires i < |records| && LastOfName(records, i)
    ensures FindName(records, records[i].name) == Some(records[i])
  {
    var k := |records| - 1;
    if i < k {
      assert LastOfName(records[..k], i) by {
        assert forall j :: i < j < k ==> records[..k][j] == records[j];
      }
      FindLastName(records[..k], i);
      assert records[k].name != records[i].name;
    }
  }

  /** Writing records of different memories: each is found under its id and the last one of a name under the name. */
  lemma SetAllIs(m: Meta, records: seq<Record>)
    requires !RepeatsId(records)
    ensures var s := SetAll(m, records);
            && (forall r <- records :: r.id in s.memories && s.memories[r.id] == r)
            && (forall id :: (forall r <- records :: r.id != id)
                  ==> (id in s.memories <==> id in m.memories)
                      && (id in m.memories ==> s.memories[id] == m.memories[id]))
            && (forall i :: 0 <= i < |records| && LastOfName(records, i)
                  ==> records[i].name in s.names
                      && s.names[records[i].name]
                         == NameEntry(records[i].id, records[i].name, records[i].contentKey, records[i].contentHash))
            && (forall name :: (forall r <- records :: r.name != name)
                  ==> (name in s.names <==> name in m.names) && (name in s.names ==> s.names[name] == m.names[name]))
  {
    forall r | r in records ensures r.id in SetAll(m, records).memories && SetAll(m, records).memories[r.id] == r {
      FindIs(records, r);
      SetAllMemory(m, records, r.id);
    }
    forall id | forall r <- records :: r.id != id
      ensures id in SetAll(m, records).memories <==> id in m.memories
      ensures id in m.memories ==> SetAll(m, records).memories[id] == m.memories[id]
    {
      SetAllMemory(m, records, id);
    }
    forall i | 0 <= i < |records| && LastOfName(records, i)
      ensures records[i].name in SetAll(m, records).names
      ensures SetAll(m, records).names[records[i].name] == EntryOf(records[i])
    {
      FindLastName(records, i);
      SetAllName(m, records, records[i].name);
    }
    forall name | forall r <- records :: r.name != name
      ensures name in SetAll(m, records).names <==> name in m.names
      ensures name in SetAll(m, records).names ==> SetAll(m, records).names[name] == m.names[name]
    {
      SetAllName(m, records, name);
    }
  }

  /** One of the first memories named holds the name and gives it up. */
  ghost predicate GivenUpBy(m: Meta, before: seq<(MemoryId, Hash)>, records: seq<Record>, name: Name) {
    && name in m.names && m.names[name].memoryId in m.memories && m.memories[m.names[name].memoryId].name == name
    && IsNamed(before, m.names[name].memoryId)
    && Find(records, m.names[name].memoryId).Some? && Find(records, m.names[name].memoryId).value.name != name
  }

  lemma {:induction false} DropRenamedIs(m: Meta, before: seq<(MemoryId, Hash)>, records: seq<Record>, name: Name)
    ensures var names := DropRenamed(m, before, records);
            && (name in names <==> name in m.names && !GivenUpBy(m, before, records, name))
            && (name in names ==> names[name] == m.names[name])
  {
    if before != [] {
      var k := |before| - 1;
      DropRenamedIs(m, before[..k], records, name);
      forall id ensures IsNamed(before, id) <==> IsNamed(before[..k], id) || before[k].0 == id {
        if IsNamed(before[..k], id) { var i :| 0 <= i < k && before[..k][i].0 == id; assert before[i].0 == id; }
      }
    }
  }

  lemma GaveUpIff(m: Meta, c: Commit, records: seq<Record>, name: Name)
    requires !RepeatsId(records)
    ensures GaveUp(m, c, records, name) <==> GivenUpBy(m, c.before, records, name)
  {
    if GaveUp(m, c, records, name) {
      var r :| r in records && r.id == m.names[name].memoryId && r.name != name;
      FindIs(records, r);
    }
  }

  // ----- Settings -----

  /** No transaction takes a settings version back, and as long as the version stands the settings do. */
  lemma SettingsMoveOn(m: Meta, call: Call)
    ensures VersionOf(After(m, call).settings) >= VersionOf(m.settings)
    ensures VersionOf(After(m, call).settings) == VersionOf(m.settings) ==> After(m, call).settings == m.settings
    ensures !call.SaveSettings? ==> After(m, call).settings == m.settings
  {
    match call
    case RestoreManyCall(previous, current, tombs) => RestoreAllKeepsTheRest(m, previous, current, tombs);
    case ReplaceManyCall(oldName, next, tombs) => ReplaceKeepsTheRest(m, oldName, next, tombs);
    case CommitMutationCall(c, records) => SetAllMemory(m.(names := DropRenamed(m, c.before, records)), records, 0);
    case _ =>
  }

  lemma RestoreAllKeepsTheRest(m: Meta, previous: seq<Record>, current: seq<Record>, tombs: seq<Tombstone>)
    ensures OrElse(RestoreAll(m, previous, current, tombs), m).settings == m.settings
  {
    DropCurrentMemory(m, previous, current, 0);
    SetAllMemory(DropCurrent(m, previous, current), previous, 0);
    UnburyKeepsDocuments(SetAll(DropCurrent(m, previous, current), previous), tombs);
  }

  lemma ReplaceKeepsTheRest(m: Meta, oldName: Name, next: seq<Record>, tombs: seq<Tombstone>)
    ensures OrElse(Replace(m, oldName, next, tombs), m).settings == m.settings
  {
    var dropped := if HasName(next, oldName) then m else m.(names := m.names - {oldName});
    SetAllMemory(dropped, next, 0);
    BuryKeepsDocuments(SetAll(dropped, next), tombs);
  }

  lemma {:induction false} SettingsMoveOnForever(tr: seq<Meta>, calls: seq<Call>, i: nat, j: nat)
    requires IsRun(tr, calls) && i <= j < |tr|
    ensures VersionOf(tr[j].settings) >= VersionOf(tr[i].settings)
    ensures VersionOf(tr[j].settings) == VersionOf(tr[i].settings) ==> tr[j].settings == tr[i].settings
  {
    if i < j {
      SettingsMoveOnForever(tr, calls, i, j - 1);
      assert tr[j - 1 + 1] == After(tr[j - 1], calls[j - 1]);
      SettingsMoveOn(tr[j - 1], calls[j - 1]);
    }
  }

  /**
    A commit that is applied with the settings version read at an earlier state of the run: the settings have been the
    same, and enabled, at every state from the reading to the commit, although settings are written without any lock.
   */
  lemma AppliedUsedSettingsInForce(tr: seq<Meta>, calls: seq<Call>, i: nat, j: nat)
    requires IsRun(tr, calls) && i <= j < |calls| && calls[j].CommitMutationCall?
    requires Committed(tr[j], calls[j].commit, calls[j].records).0 == Ok(Applied)
    requires calls[j].commit.settingsVersion == Some(VersionOf(tr[i].settings))
    ensures forall k :: i <= k <= j ==> tr[k].settings == tr[i].settings
    ensures tr[i].settings.Some? && tr[i].settings.value.enabled
  {
    CommitAppliedIff(tr[j], calls[j].commit, calls[j].records);
    hide IsRun, Committed, AsCalled, DeadLink;
    forall k | i <= k <= j ensures tr[k].settings == tr[i].settings {
      SettingsMoveOnForever(tr, calls, i, k);
      SettingsMoveOnForever(tr, calls, k, j);
    }
  }

  // ----- The transactions on single memories -----

  /** A put: when each exception is thrown, and the documents it writes. */
  lemma PutIs(m: Meta, r: Record, expectedRevision: Option<nat>)
    ensures var result := Put(m, r, expectedRevision);
            var count := if m.revision.Some? then m.revision.value else 0;
            && (result == Err(ProjectNotFound) <==> !m.shared && m.revision.None?)
            && (result == Err(RevisionMoved)
                <==> (m.shared || m.revision.Some?) && expectedRevision.Some? && expectedRevision.value != count)
            && (result == Err(NameTaken)
                <==> (m.shared || m.revision.Some?) && (expectedRevision.None? || expectedRevision.value == count)
                     && r.name in m.names && m.names[r.name].memoryId != r.id)
            && (result.Err? ==> result.error in {ProjectNotFound, RevisionMoved, NameTaken})
            && (result.Ok?
                ==> result.value == Meta(m.shared, Some(count + 1), m.memories[r.id := r],
                                         m.names[r.name := NameEntry(r.id, r.name, r.contentKey, r.contentHash)],
                                         m.tombstones, m.settings, m.observations, m.operations))
  {
  }

  /** A removal takes the record, and its name entry where it is the memory's own, only while the pointer stands. */
  lemma RemoveIs(m: Meta, id: MemoryId, expected: Pointer)
    ensures var s := Remove(m, id, expected);
            if id in m.memories && m.memories[id].contentKey == expected.contentKey
               && m.memories[id].contentHash == expected.contentHash
            then
              && s == m.(memories := m.memories - {id}, names := s.names,
                         revision := if m.revision.Some? then Some(m.revision.value + 1) else None)
              && forall name :: (name in s.names ==> name in m.names && s.names[name] == m.names[name])
                   && (name in m.names && name !in s.names
                       <==> name in m.names && name == m.memories[id].name && m.names[name].memoryId == id
                            && m.names[name].contentKey == expected.contentKey
                            && m.names[name].contentHash == expected.contentHash)
            else s == m
  {
  }

  /** A deletion takes the record and its name and leaves the tombstone, with no check and the revision as it was. */
  lemma DeleteIs(m: Meta, id: MemoryId, tomb: Tombstone)
    ensures var s := Delete(m, id, tomb);
            && s == m.(memories := m.memories - {id}, names := s.names,
                       tombstones := m.tombstones[tomb.contentKey := tomb])
            && forall name :: (name in s.names
                               <==> name in m.names && !(id in m.memories && m.memories[id].name == name))
                 && (name in s.names ==> s.names[name] == m.names[name])
  {
  }

  /**
    A restore that acts: the record and its name are back, the revision moves, the tombstone or the other name goes.
   */
  lemma RestoreOneIs(m: Meta, r: Record, expected: Pointer)
    ensures var acts := if r.id in m.memories
                        then m.memories[r.id].contentKey == expected.contentKey
                             && m.memories[r.id].contentHash == expected.contentHash
                        else r.contentKey in m.tombstones && m.tombstones[r.contentKey].memoryId == r.id
                             && m.tombstones[r.contentKey].contentKey == r.contentKey;
            var taken := r.name in m.names && m.names[r.name].memoryId != r.id;
            var result := RestoreOne(m, r, expected);
            && (!acts ==> result == Ok(m))
            && (acts && taken ==> result == Err(NameTaken))
            && (acts && !taken
                ==> result.Ok?
                    && var s := result.value;
                       && s == m.(memories := m.memories[r.id := r], names := s.names,
                                  tombstones := if r.id in m.memories then m.tombstones
                                                else m.tombstones - {r.contentKey},
                                  revision := if m.revision.Some? then Some(m.revision.value + 1) else None)
                       && r.name in s.names
                       && s.names[r.name] == NameEntry(r.id, r.name, r.contentKey, r.contentHash)
                       && forall name :: name != r.name
                            ==> (name in s.names ==> name in m.names && s.names[name] == m.names[name])
                                && (name in m.names && name !in s.names
                                    <==> && name in m.names && r.id in m.memories && m.memories[r.id].name == name
                                         && m.names[name].memoryId == r.id
                                         && m.names[name].contentKey == expected.contentKey
                                         && m.names[name].contentHash == expected.contentHash))
  {
  }

  // ----- The transactions of a rename -----

  /** When a replacement throws. */
  lemma ReplaceAnswers(m: Meta, oldName: Name, records: seq<Record>, tombs: seq<Tombstone>)
    ensures var result := Replace(m, oldName, records, tombs);
            var free := forall r <- records :: r.name in m.names ==> m.names[r.name].memoryId == r.id;
            && (result == Err(ProjectNotFound) <==> !m.shared && m.revision.None?)
            && (result == Err(NameTaken) <==> (m.shared || m.revision.Some?) && !free)
            && (result.Ok? <==> (m.shared || m.revision.Some?) && free)
  {
    SomeNameTakenIff(m.names, records);
    hide SomeNameTaken;
  }

  /** What a replacement writes: the records under their ids and names, the tombstones, and the old name gone. */
  lemma ReplaceWrites(m: Meta, oldName: Name, records: seq<Record>, tombs: seq<Tombstone>)
    requires (forall i, j :: 0 <= i < j < |records| ==> records[i].id != records[j].id)
    requires Replace(m, oldName, records, tombs).Ok?
    ensures var s := Replace(m, oldName, records, tombs).value;
            && s == m.(memories := s.memories, names := s.names, tombstones := s.tombstones,
                       revision := Some((if m.revision.Some? then m.revision.value else 0) + 1))
            && RecordsIn(s, records)
            && (forall id :: (forall r <- records :: r.id != id)
                  ==> (id in s.memories <==> id in m.memories)
                      && (id in m.memories ==> s.memories[id] == m.memories[id]))
            && (forall name :: (forall r <- records :: r.name != name)
                  ==> (name in s.names <==> name in m.names && name != oldName)
                      && (name in s.names ==> s.names[name] == m.names[name]))
            && (forall i :: 0 <= i < |tombs| && LastOfKey(tombs, i)
                  ==> tombs[i].contentKey in s.tombstones && s.tombstones[tombs[i].contentKey] == tombs[i])
            && forall key :: (forall t <- tombs :: t.contentKey != key)
                 ==> (key in s.tombstones <==> key in m.tombstones)
                     && (key in m.tombstones ==> s.tombstones[key] == m.tombstones[key])
  {
    hide LastOfName, LastOfKey, NameTakenBy, SomeNameTaken, SetAll, BuryAll;
    var dropped := if HasName(records, oldName) then m else m.(names := m.names - {oldName});
    var stored := SetAll(dropped, records);
    SetAllIs(dropped, records);
    SetAllMemory(dropped, records, 0);
    BuryKeepsDocuments(stored, tombs);
    BuryAllIs(stored, tombs);
  }

  /** Each record is stored under its id, and the last one of a name is indexed under it. */
  ghost predicate RecordsIn(s: Meta, records: seq<Record>) {
    && (forall r <- records :: r.id in s.memories && s.memories[r.id] == r)
    && forall i :: 0 <= i < |records| && LastOfName(records, i)
         ==> records[i].name in s.names
             && s.names[records[i].name]
                == NameEntry(records[i].id, records[i].name, records[i].contentKey, records[i].contentHash)
  }

  /** No later tombstone of the list is for the same object. */
  ghost predicate LastOfKey(tombs: seq<Tombstone>, i: nat)
    requires i < |tombs|
  {
    forall j :: i < j < |tombs| ==> tombs[j].contentKey != tombs[i].contentKey
  }

  lemma {:induction false} BuryAllIs(m: Meta, tombs: seq<Tombstone>)
    ensures var buried := BuryAll(m, tombs).tombstones;
            && (forall i :: 0 <= i < |tombs| && LastOfKey(tombs, i)
                  ==> tombs[i].contentKey in buried && buried[tombs[i].contentKey] == tombs[i])
            && forall key :: (forall t <- tombs :: t.contentKey != key)
                 ==> (key in buried <==> key in m.tombstones)
                     && (key in m.tombstones ==> buried[key] == m.tombstones[key])
  {
    forall i | 0 <= i < |tombs| && LastOfKey(tombs, i)
      ensures tombs[i].contentKey in BuryAll(m, tombs).tombstones
      ensures BuryAll(m, tombs).tombstones[tombs[i].contentKey] == tombs[i]
    {
      LastIsBuried(m, tombs, i);
    }
    forall key | forall t <- tombs :: t.contentKey != key
      ensures key in BuryAll(m, tombs).tombstones <==> key in m.tombstones
      ensures key in m.tombstones ==> BuryAll(m, tombs).tombstones[key] == m.tombstones[key]
    {
      BuryAt(m, tombs, key);
    }
  }

  lemma {:induction false} LastIsBuried(m: Meta, tombs: seq<Tombstone>, i: nat)
    requires i < |tombs| && LastOfKey(tombs, i)
    ensures var buried := BuryAll(m, tombs).tombstones;
            tombs[i].contentKey in buried && buried[tombs[i].contentKey] == tombs[i]
  {
    var k := |tombs| - 1;
    if i < k {
      assert LastOfKey(tombs[..k], i) by {
        assert forall j :: i < j < k ==> tombs[..k][j] == tombs[j];
      }
      LastIsBuried(m, tombs[..k], i);
      assert tombs[k].contentKey != tombs[i].contentKey;
    }
  }

  /** The record and its name entry are there with this content. */
  ghost predicate Holds(m: Meta, r: Record) {
    && r.id in m.memories && m.memories[r.id].contentKey == r.contentKey
    && m.memories[r.id].contentHash == r.contentHash
    && r.name in m.names && m.names[r.name].memoryId == r.id
    && m.names[r.name].contentKey == r.contentKey && m.names[r.name].contentHash == r.contentHash
  }

  /** When a restore of several records throws: something it is to take back has changed, or a name is gone. */
  lemma RestoreAllAnswers(m: Meta, previous: seq<Record>, current: seq<Record>, tombs: seq<Tombstone>)
    ensures var result := RestoreAll(m, previous, current, tombs);
            var still := forall r <- current :: Holds(m, r);
            var free := forall r <- previous :: r.name in m.names ==> m.names[r.name].memoryId == r.id;
            && (result == Err(RestoreConflict) <==> !still)
            && (result == Err(NameTaken) <==> still && !free)
            && (result.Ok? <==> still && free)
  {
    SomeNameTakenIff(m.names, previous);
    assert forall r: Record :: StillCurrent(m, r) <==> Holds(m, r);
    hide SomeNameTaken, Holds, StillCurrent;
    if forall i :: 0 <= i < |current| ==> StillCurrent(m, current[i]) {
      forall r | r in current ensures Holds(m, r) {
        var i :| 0 <= i < |current| && current[i] == r;
        assert StillCurrent(m, current[i]);
      }
    }
  }

  /** What a restore of several records writes. */
  lemma RestoreAllWrites(m: Meta, previous: seq<Record>, current: seq<Record>, tombs: seq<Tombstone>)
    requires (forall i, j :: 0 <= i < j < |previous| ==> previous[i].id != previous[j].id)
    requires RestoreAll(m, previous, current, tombs).Ok?
    ensures var s := RestoreAll(m, previous, current, tombs).value;
            && s == m.(memories := s.memories, names := s.names, tombstones := s.tombstones,
                       revision := if m.revision.Some? then Some(m.revision.value + 1) else None)
            && RecordsIn(s, previous)
            && (forall id :: (forall r <- previous :: r.id != id)
                  ==> (id in s.memories <==> id in m.memories && forall r <- current :: r.id != id)
                      && (id in s.memories ==> s.memories[id] == m.memories[id]))
            && (forall name :: (forall r <- previous :: r.name != name)
                  ==> (name in s.names <==> name in m.names && forall r <- current :: r.name != name)
                      && (name in s.names ==> s.names[name] == m.names[name]))
            && forall key :: (key in s.tombstones
                              <==> key in m.tombstones && forall t <- tombs :: t.contentKey != key)
                 && (key in s.tombstones ==> s.tombstones[key] == m.tombstones[key])
  {
    hide LastOfName, SetAll, UnburyAll, DropCurrent, RestoreAll;
    var dropped := DropCurrent(m, previous, current);
    RestoreAllShape(m, previous, current, tombs);
    DroppedIs(m, previous, current);
    SetAllIs(dropped, previous);
    UnburyAllIs(SetAll(dropped, previous), tombs);
  }

  lemma RestoreAllShape(m: Meta, previous: seq<Record>, current: seq<Record>, tombs: seq<Tombstone>)
    requires RestoreAll(m, previous, current, tombs).Ok?
    ensures var s := RestoreAll(m, previous, current, tombs).value;
            var stored := SetAll(DropCurrent(m, previous, current), previous);
            && s == m.(memories := stored.memories, names := stored.names,
                       tombstones := UnburyAll(stored, tombs).tombstones,
                       revision := if m.revision.Some? then Some(m.revision.value + 1) else None)
            && stored.tombstones == m.tombstones
  {
    hide SetAll, UnburyAll, DropCurrent, StillCurrent, SomeNameTaken;
    var dropped := DropCurrent(m, previous, current);
    DropCurrentMemory(m, previous, current, 0);
    SetAllMemory(dropped, previous, 0);
    UnburyKeepsDocuments(SetAll(dropped, previous), tombs);
  }

  lemma DroppedIs(m: Meta, previous: seq<Record>, current: seq<Record>)
    ensures var s := DropCurrent(m, previous, current);
            && SameRest(m, s)
            && (forall id :: (forall r <- previous :: r.id != id)
                  ==> (id in s.memories <==> id in m.memories && forall r <- current :: r.id != id)
                      && (id in s.memories ==> s.memories[id] == m.memories[id]))
            && (forall name :: (forall r <- previous :: r.name != name)
                  ==> (name in s.names <==> name in m.names && forall r <- current :: r.name != name)
                      && (name in s.names ==> s.names[name] == m.names[name]))
  {
    hide DropCurrent;
    DropCurrentMemory(m, previous, current, 0);
    forall id | forall r <- previous :: r.id != id
      ensures id in DropCurrent(m, previous, current).memories
              <==> id in m.memories && forall r <- current :: r.id != id
      ensures id in DropCurrent(m, previous, current).memories
              ==> DropCurrent(m, previous, current).memories[id] == m.memories[id]
    {
      DropCurrentMemory(m, previous, current, id);
    }
    forall name | forall r <- previous :: r.name != name
      ensures name in DropCurrent(m, previous, current).names
              <==> name in m.names && forall r <- current :: r.name != name
      ensures name in DropCurrent(m, previous, current).names
              ==> DropCurrent(m, previous, current).names[name] == m.names[name]
    {
      DropCurrentName(m, previous, current, name);
      assert forall r: Record :: GivesUp(previous, r, name) <==> r.name == name;
      assert forall i :: 0 <= i < |current| ==> current[i] in current;
    }
  }

  lemma UnburyAllIs(m: Meta, tombs: seq<Tombstone>)
    ensures forall key :: (key in UnburyAll(m, tombs).tombstones
                           <==> key in m.tombstones && forall t <- tombs :: t.contentKey != key)
              && (key in UnburyAll(m, tombs).tombstones
                  ==> UnburyAll(m, tombs).tombstones[key] == m.tombstones[key])
  {
    forall key
      ensures key in UnburyAll(m, tombs).tombstones
              <==> key in m.tombstones && forall t <- tombs :: t.contentKey != key
      ensures key in UnburyAll(m, tombs).tombstones
              ==> UnburyAll(m, tombs).tombstones[key] == m.tombstones[key]
    {
      UnburyAt(m, tombs, key);
      assert Buried(tombs, key) <==> exists t <- tombs :: t.contentKey == key;
    }
  }
}
