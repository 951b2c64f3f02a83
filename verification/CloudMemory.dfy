/**
  The sagas of the cloud service: ordered writes to the object store, the metadata and the cache, with flags and
  compensation in the catch blocks. Every call that can fail has its outcome in a `faults` parameter, and `trace`
  records the world after each step, so the contracts speak of every intermediate state of every failing run.
 */
module CloudMemory {
  import opened Base
  import opened MetadataStore
  import opened MetadataInvariants
  import opened CloudPointers

  /**
    A write is create-only. One that throws may still have stored the object (the upload worked, the look-up after it
    did not).
   */
  datatype WriteFault = WriteWorks | WriteThrows(stored: bool)

  /** A removal that throws may or may not have removed the object. */
  datatype RemoveFault = RemoveWorks | RemoveThrows(removed: bool)

  predicate Removes(fault: RemoveFault) { fault.RemoveWorks? || fault.removed }

  datatype SaveFaults = SaveFaults(write: WriteFault, putUp: bool, cacheUp: bool, undoUp: bool, remove: RemoveFault,
                                   buryUp: bool)

  datatype ForgetFaults = ForgetFaults(deleteUp: bool, cacheUp: bool, undoUp: bool, remove: RemoveFault,
                                       bodies: map<Key, RemoveFault>)

  datatype RenameFaults = RenameFaults(writes: map<Key, WriteFault>, replaceUp: bool, cacheUp: bool, undoUp: bool,
                                       removes: map<Key, RemoveFault>,
                                       buryUp: bool, clearUp: bool)

  datatype CommitFault = CommitWorks | CommitThrows(applied: bool)

  datatype MutationFaults = MutationFaults(headUp: bool, writes: map<Key, WriteFault>, commit: CommitFault,
                                           cacheUp: bool, reindexUp: bool, checkUp: bool,
                                           rebuildUp: bool, removes: map<Key, RemoveFault>)

  function WriteOf(faults: map<Key, WriteFault>, key: Key): WriteFault {
    if key in faults then faults[key] else WriteWorks
  }

  function RemoveOf(faults: map<Key, RemoveFault>, key: Key): RemoveFault {
    if key in faults then faults[key] else RemoveWorks
  }

  datatype Ending = Done | Refused | Failed | CompensationFailed

  datatype Patch = Patch(links: Option<seq<Name>>, rest: int)

  function Patched(current: Memory, patch: Patch): Memory {
    Memory(current.id, current.name, if patch.links.Some? then patch.links.value else current.links, current.active,
           patch.rest)
  }

  /** The record that a memory gets when its text is stored under its own key. */
  function OwnRecord(m: Memory): Record { IndexRecord(m, KeyOf(m), Sha256(Text(m))) }

  /** The record behind a cache row and the text it names. */
  function RowRecord(row: Row, m: Memory): Record { IndexRecord(m, row.filePath, row.contentHash) }

  /** The memory's text is a new object and its record has been put. */
  ghost predicate PutAs(before: World, after: World, m: Memory) {
    Put(before.meta, OwnRecord(m), None) == Ok(after.meta) && KeyOf(m) !in before.objects
  }

  /** The updated text is stored under its own key; the old object is gone unless its removal failed. */
  ghost function Swapped(objects: map<Key, Text>, updated: Memory, oldKey: Key, remove: RemoveFault): map<Key, Text> {
    objects[KeyOf(updated) := Text(updated)] - if Removes(remove) then {oldKey} else {}
  }

  function BodyKeys(id: MemoryId, revisions: seq<RevisionId>): (keys: seq<Key>)
    ensures forall i :: 0 <= i < |keys| ==> keys[i].RevisionObject?
  {
    seq(|revisions|, (i: nat) requires i < |revisions| => RevisionObject(id, revisions[i]))
  }

  /** The memory's object and the bodies are gone, unless their removal failed. */
  ghost function Forgotten(objects: map<Key, Text>, row: Row, bodies: seq<Key>, faults: ForgetFaults): map<Key, Text> {
    map key | key in objects && !(key == row.filePath && Removes(faults.remove))
      && !(key in bodies && Removes(RemoveOf(faults.bodies, key)))
      :: objects[key]
  }

  /** The row names a stored text, and the metadata record is the one made from it: the cache is up to date. */
  ghost predicate UpToDate(w: World, row: Row) {
    row.filePath in w.objects && row.id in w.meta.memories
      && w.meta.memories[row.id] == RowRecord(row, w.objects[row.filePath].memory)
  }

  /** The object waits to be collected: its tombstone names the memory it was written for and the time. */
  ghost predicate Buries(m: Meta, key: Key, id: MemoryId, now: int) {
    key in m.tombstones && m.tombstones[key] == Tombstone(id, key, now)
  }

  ghost predicate SameIndex(m: Meta, s: Meta) {
    s.memories == m.memories && s.names == m.names
  }

  lemma SameIndexSameOk(m: Meta, s: Meta)
    requires SameIndex(m, s)
    ensures NameIndexOk(m) <==> NameIndexOk(s)
  {
    if NameIndexOk(m) { SameDocumentsSameIndex(m, s); }
    if NameIndexOk(s) { SameDocumentsSameIndex(s, m); }
  }

  /** The memory of the cache row is recorded under another name than the row's. */
  ghost predicate RecordedOtherwise(m: Meta, row: Row) {
    row.id in m.memories && m.memories[row.id].name != row.name
  }

  /** The project can be written, and no other memory has the name. */
  ghost predicate NameFree(m: Meta, id: MemoryId, name: Name) {
    (m.shared || m.revision.Some?) && (name in m.names ==> m.names[name].memoryId == id)
  }

  /** A save gets as far as putting its record: its text is new and is written, and the record is accepted. */
  ghost predicate SavePuts(w: World, memory: Memory, faults: SaveFaults) {
    && KeyOf(memory) !in w.objects && faults.write.WriteWorks? && faults.putUp
    && NameFree(w.meta, memory.id, memory.name)
  }

  lemma PutOkIff(m: Meta, memory: Memory)
    ensures var put := Put(m, OwnRecord(memory), None);
            && (put.Ok? <==> NameFree(m, memory.id, memory.name))
            && (put.Ok? ==> memory.id in put.value.memories && put.value.memories[memory.id] == OwnRecord(memory))
  {
  }

  /** An update gets as far as putting its record. */
  ghost predicate Puts(w: World, row: Row, patch: Patch, faults: SaveFaults) {
    row.filePath in w.objects && SavePuts(w, Patched(w.objects[row.filePath].memory, patch), faults)
  }

  /** The undo of a forget finds the name of the row with another memory. */
  ghost predicate NameLost(m: Meta, row: Row) {
    && row.name in m.names && m.names[row.name].memoryId != row.id
    && !(row.id in m.memories && m.memories[row.id].name == row.name)
  }

  ghost predicate AllSound(trace: seq<World>) {
    forall i :: 0 <= i < |trace| ==> Sound(trace[i])
  }

  lemma OneMoreWorld(trace: seq<World>, w: World)
    ensures AllSound(trace + [w]) <==> AllSound(trace) && Sound(w)
  {
    var more := trace + [w];
    assert more[|trace|] == w && forall i :: 0 <= i < |trace| ==> more[i] == trace[i];
    if AllSound(more) {
      forall i | 0 <= i < |trace| ensures Sound(trace[i]) { assert Sound(more[i]); }
    }
  }

  class CloudMemoryService {
    var objects: map<Key, Text>
    var meta: Meta
    ghost var trace: seq<World>

    constructor (shared: bool)
      ensures objects == map[] && meta == Meta(shared, None, map[], map[], map[], None, map[], map[]) && trace == []
    {
      objects, meta, trace := map[], Meta(shared, None, map[], map[], map[], None, map[], map[]), [];
    }

    ghost function Now(): World
      reads this
    {
      World(objects, meta)
    }

    method WriteObject(key: Key, text: Text, fault: WriteFault) returns (ok: bool)
      modifies this
      ensures ok <==> key !in old(objects) && fault.WriteWorks?
      ensures objects
              == (if key !in old(objects) && (ok || fault.stored) then old(objects)[key := text] else old(objects))
      ensures meta == old(meta)
      ensures trace == old(trace) + [Now()]
    {
      ok := key !in objects && fault.WriteWorks?;
      if key !in objects && (fault.WriteWorks? || fault.stored) { objects := objects[key := text]; }
      trace := trace + [World(objects, meta)];
    }

    method RemoveObject(key: Key, fault: RemoveFault) returns (ok: bool)
      modifies this
      ensures ok <==> key in old(objects) && fault.RemoveWorks?
      ensures objects == (if Removes(fault) then old(objects) - {key} else old(objects)) && meta == old(meta)
      ensures trace == old(trace) + [Now()]
    {
      ok := key in objects && fault.RemoveWorks?;
      if fault.RemoveWorks? || fault.removed { objects := objects - {key}; }
      trace := trace + [World(objects, meta)];
    }

    /** A committed metadata transaction. */
    method StoreMetadata(m: Meta)
      modifies this
      ensures meta == m && objects == old(objects) && trace == old(trace) + [Now()]
    {
      meta := m;
      trace := trace + [World(objects, meta)];
    }

    /** `remove(key)` and, if it throws, a tombstone for later collection. */
    method RemoveOrBury(key: Key, id: MemoryId, now: int, remove: RemoveFault, buryUp: bool)
      requires ObjectsOk(objects)
      modifies this
      ensures old(trace) <= trace && ObjectsOk(objects)
      ensures Sound(Now()) <==> old(Sound(Now())) && !(Removes(remove) && Referenced(old(meta.memories), key))
      ensures AllSound(trace) <==> AllSound(old(trace)) && Sound(Now())
      ensures objects == if Removes(remove) then old(objects) - {key} else old(objects)
      ensures meta == if (key in old(objects) && remove.RemoveWorks?) || !buryUp then old(meta)
                      else old(meta).(tombstones := old(meta).tombstones[key := Tombstone(id, key, now)])
    {
      RemovalIsSoundIff(Now(), key);
      var ok := RemoveObject(key, remove);
      OneMoreWorld(old(trace), Now());
      if !ok && buryUp {
        StoreMetadata(meta.(tombstones := meta.tombstones[key := Tombstone(id, key, now)]));
        OneMoreWorld(old(trace) + [World(objects, old(meta))], Now());
      }
    }

    /** `save`. The name was looked up in the cache first; the cache transaction is the third of the three writes. */
    method Save(nameInCache: bool, memory: Memory, now: int, faults: SaveFaults) returns (ending: Ending)
      requires Sound(Now()) && AllSound(trace)
      modifies this
      ensures Sound(Now()) && AllSound(trace) && old(trace) <= trace
      ensures ending == Refused <==> nameInCache
      ensures ending == Done <==> !nameInCache && SavePuts(old(Now()), memory, faults) && faults.cacheUp
      ensures ending == CompensationFailed
              <==> !nameInCache && SavePuts(old(Now()), memory, faults) && !faults.cacheUp && !faults.undoUp
      ensures ending == Refused ==> Now() == old(Now())
      ensures ending == Done
              ==> PutAs(old(Now()), Now(), memory) && objects == old(objects)[KeyOf(memory) := Text(memory)]
      ensures (ending == Failed && NameIndexOk(old(meta)) && memory.id !in old(meta).memories)
              ==> SameIndex(old(meta), meta)
      ensures (ending == Failed && Removes(faults.remove))
              ==> objects == old(objects)
                  || (faults.write.WriteThrows? && objects == old(objects)[KeyOf(memory) := Text(memory)])
      ensures (ending == Failed && faults.write.WriteWorks? && KeyOf(memory) in objects
               && KeyOf(memory) !in old(objects)
               && faults.buryUp)
              ==> Buries(meta, KeyOf(memory), memory.id, now)
      ensures ending == CompensationFailed
              ==> PutAs(old(Now()), Now(), memory) && objects == old(objects)[KeyOf(memory) := Text(memory)]
      ensures NameIndexOk(old(meta)) && memory.id !in old(meta).memories ==> NameIndexOk(meta)
    {
      hide NameIndexOk;
      if nameInCache { return Refused; }
      var key, text := KeyOf(memory), Text(memory);
      var record := OwnRecord(memory);
      AbsentIfFresh(Now(), key, text);
      var written := WriteObject(key, text, faults.write);
      if !written { return Failed; }
      var put := Put(meta, record, None);
      if !faults.putUp || put.Err? {
        assert !Referenced(meta.memories, key) by { AbsentIsUnreferenced(old(Now()), key); }
        RemoveOrBury(key, memory.id, now, faults.remove, faults.buryUp);
        SameIndexSameOk(old(meta), meta);
        return Failed;
      }
      PutKeepsSound(Now(), record, None);
      if NameIndexOk(meta) { PutKeepsIndexIff(meta, record, None); }
      StoreMetadata(put.value);
      ending := Done;
      if !faults.cacheUp {
        ending := UndoSave(memory, now, faults, old(Now()));
        if SameIndex(old(meta), meta) { SameIndexSameOk(old(meta), meta); }
      }
    }

    /** The catch block of `save` after the metadata was put: the record is taken back, then the object goes. */
    method UndoSave(memory: Memory, now: int, faults: SaveFaults, ghost before: World) returns (ending: Ending)
      requires Sound(Now()) && AllSound(trace) && PutAs(before, Now(), memory) && KeyOf(memory) in objects
      modifies this
      ensures Sound(Now()) && AllSound(trace) && old(trace) <= trace
      ensures ending == Failed || (ending == CompensationFailed && Now() == old(Now()))
      ensures ending == CompensationFailed <==> !faults.undoUp
      ensures ending == Failed
              ==> objects == if Removes(faults.remove) then old(objects) - {KeyOf(memory)} else old(objects)
      ensures (ending == Failed && KeyOf(memory) in objects && faults.buryUp)
              ==> Buries(meta, KeyOf(memory), memory.id, now)
      ensures (ending == Failed && NameIndexOk(before.meta) && memory.id !in before.meta.memories)
              ==> SameIndex(before.meta, meta)
    {
      var record := OwnRecord(memory);
      if !faults.undoUp { return CompensationFailed; }
      RemoveRecordKeepsSound(Now(), memory.id, PointerOf(record));
      StoreMetadata(Remove(meta, memory.id, PointerOf(record)));
      if NameIndexOk(before.meta) && memory.id !in before.meta.memories { RemoveUndoesPut(before.meta, record, None); }
      NobodyPoints(Now(), KeyOf(memory), memory.id);
      RemoveOrBury(KeyOf(memory), memory.id, now, faults.remove, faults.buryUp);
      ending := Failed;
    }

    /**
      The catch block of `update` after the metadata was put: the previous record is restored, then the new object
      goes.
     */
    method UndoUpdate(updated: Memory, previous: Record, now: int, faults: SaveFaults, ghost before: World)
      returns (ending: Ending)
      requires Sound(Now()) && AllSound(trace) && Sound(before) && PutAs(before, Now(), updated)
      requires KeyOf(updated) in objects
      requires PointerOk(objects, previous) && previous.id == updated.id && previous.name == updated.name
      requires previous.contentKey != KeyOf(updated)
      modifies this
      ensures (ending == Failed && Removes(faults.remove)) ==> objects == old(objects) - {KeyOf(updated)}
      ensures (ending == Failed && faults.buryUp)
              ==> KeyOf(updated) !in objects || Buries(meta, KeyOf(updated), updated.id, now)
      ensures forall key :: key in objects ==> key in old(objects)
      ensures Sound(Now()) && AllSound(trace) && old(trace) <= trace
      ensures ending == Failed || ending == CompensationFailed
      ensures ending == CompensationFailed <==> !faults.undoUp
      ensures (ending == Failed && NameIndexOk(before.meta) && previous.id in before.meta.memories
               && before.meta.memories[previous.id] == previous)
              ==> SameIndex(before.meta, meta)
      ensures NameIndexOk(before.meta)
              ==> (NameIndexOk(meta)
                   <==> (updated.id in before.meta.memories ==> before.meta.memories[updated.id].name == updated.name))
    {
      hide NameIndexOk;
      var record := OwnRecord(updated);
      if NameIndexOk(before.meta) {
        PutKeepsIndexIff(before.meta, record, None);
        UndonePutKeepsIndexIff(before.meta, record, previous);
      }
      var undone := RestoreOne(meta, previous, PointerOf(record));
      if !faults.undoUp || undone.Err? { return CompensationFailed; }
      RestoreKeepsSound(Now(), previous, PointerOf(record));
      StoreMetadata(undone.value);
      if NameIndexOk(before.meta) && updated.id in before.meta.memories
        && before.meta.memories[updated.id] == previous {
        RestoreUndoesPut(before.meta, record, None);
      }
      OnlyOwnerPoints(Now(), KeyOf(updated), updated.id);
      RemoveOrBury(KeyOf(updated), updated.id, now, faults.remove, faults.buryUp);
      SameIndexSameOk(undone.value, meta);
      ending := Failed;
    }

    /** `update` of the memory found through a cache row, however stale the row is. */
    method Update(row: Row, patch: Patch, now: int, faults: SaveFaults) returns (ending: Ending)
      requires Sound(Now()) && AllSound(trace) && RowOk(row)
      modifies this
      ensures Sound(Now()) && AllSound(trace) && old(trace) <= trace
      ensures ending == Refused <==> row.filePath !in old(objects)
      ensures ending == Done <==> Puts(old(Now()), row, patch, faults) && faults.cacheUp
      ensures ending == CompensationFailed
              <==> Puts(old(Now()), row, patch, faults) && !faults.cacheUp && !faults.undoUp
      ensures ending == Refused ==> Now() == old(Now())
      ensures ending == Done ==> PutAs(old(Now()), Now(), Patched(old(objects)[row.filePath].memory, patch))
      ensures ending == Done
              ==> objects == Swapped(old(objects), Patched(old(objects)[row.filePath].memory, patch), row.filePath,
                                     faults.remove)
      ensures (ending == Failed && faults.write.WriteWorks? && Removes(faults.remove)) ==> objects == old(objects)
      ensures (ending == Failed && faults.write.WriteWorks? && faults.buryUp)
              ==> forall key :: key in objects ==> key in old(objects) || Buries(meta, key, row.id, now)
      ensures NameIndexOk(old(meta))
              ==> (NameIndexOk(meta)
                   <==> !(Puts(old(Now()), row, patch, faults) && RecordedOtherwise(old(meta), row)))
      ensures (ending == Failed && NameIndexOk(old(meta)) && UpToDate(old(Now()), row)) ==> SameIndex(old(meta), meta)
    {
      hide NameIndexOk, Referenced, RestoreOne;
      if row.filePath !in objects { return Refused; }
      var current := objects[row.filePath].memory;
      var updated := Patched(current, patch);
      assert PointerOk(objects, RowRecord(row, current)) && current.id == row.id && current.name == row.name;
      hide Sound;
      var key, text := KeyOf(updated), Text(updated);
      AbsentIfFresh(Now(), key, text);
      var written := WriteObject(key, text, faults.write);
      if !written { return Failed; }
      var put := Put(meta, OwnRecord(updated), None);
      PutOkIff(meta, updated);
      hide Put, NameFree;
      if !faults.putUp || put.Err? {
        assert !Referenced(meta.memories, key) by { AbsentIsUnreferenced(old(Now()), key); }
        RemoveOrBury(key, updated.id, now, faults.remove, faults.buryUp);
        SameIndexSameOk(old(meta), meta);
        return Failed;
      }
      PutKeepsSound(Now(), OwnRecord(updated), None);
      if NameIndexOk(meta) { PutKeepsIndexIff(meta, OwnRecord(updated), None); }
      StoreMetadata(put.value);
      ending := FinishUpdate(row, updated, RowRecord(row, current), now, faults, old(Now()));
    }

    /** What follows the put of an update: the cache, and then the old object or, if the cache fails, the undo. */
    method FinishUpdate(row: Row, updated: Memory, previous: Record, now: int, faults: SaveFaults, ghost before: World)
      returns (ending: Ending)
      requires Sound(Now()) && AllSound(trace) && Sound(before) && PutAs(before, Now(), updated) && RowOk(row)
      requires row.filePath in before.objects && previous == RowRecord(row, before.objects[row.filePath].memory)
      requires PointerOk(before.objects, previous)
      requires previous.id == row.id == updated.id && previous.name == row.name == updated.name
      requires objects == before.objects[KeyOf(updated) := Text(updated)] && KeyOf(updated) !in before.objects
      requires updated.id in meta.memories && meta.memories[updated.id] == OwnRecord(updated)
      requires NameIndexOk(before.meta) ==> (NameIndexOk(meta) <==> !RecordedOtherwise(before.meta, row))
      modifies this
      ensures Sound(Now()) && AllSound(trace) && old(trace) <= trace
      ensures ending == Done <==> faults.cacheUp
      ensures ending == CompensationFailed <==> !faults.cacheUp && !faults.undoUp
      ensures ending != Refused
      ensures ending == Done
              ==> PutAs(before, Now(), updated)
                  && objects == Swapped(before.objects, updated, row.filePath, faults.remove)
      ensures (ending == Failed && Removes(faults.remove)) ==> objects == before.objects
      ensures (ending == Failed && faults.buryUp)
              ==> forall key :: key in objects ==> key in before.objects || Buries(meta, key, row.id, now)
      ensures NameIndexOk(before.meta) ==> (NameIndexOk(meta) <==> !RecordedOtherwise(before.meta, row))
      ensures (ending == Failed && NameIndexOk(before.meta) && UpToDate(before, row)) ==> SameIndex(before.meta, meta)
    {
      hide NameIndexOk, Referenced, RestoreOne, Sound, Put, ObjectsOk;
      if !faults.cacheUp {
        ending := UndoUpdate(updated, previous, now, faults, before);
        return;
      }
      OnlyOwnerPoints(Now(), row.filePath, updated.id);
      RemoveKeepsSoundIff(Now(), row.filePath);
      var _ := RemoveObject(row.filePath, faults.remove);
      ending := Done;
    }

    /**
      `forget`: the metadata deletion leaves a tombstone, which the compensation takes away again. In the end the
      bodies of the given revisions go, the ones whose documents were found.
     */
    method Forget(row: Row, revisions: seq<RevisionId>, now: int, faults: ForgetFaults) returns (ending: Ending)
      requires Sound(Now()) && AllSound(trace) && RowOk(row)
      modifies this
      ensures Sound(Now()) && AllSound(trace) && old(trace) <= trace
      ensures ending == Refused <==> row.filePath !in old(objects)
      ensures ending == Done <==> row.filePath in old(objects) && faults.deleteUp && faults.cacheUp
      ensures ending == CompensationFailed
              <==> row.filePath in old(objects) && faults.deleteUp && !faults.cacheUp
                   && (!faults.undoUp || NameLost(old(meta), row))
      ensures ending == Refused ==> Now() == old(Now())
      ensures ending == Done ==> meta == Delete(old(meta), row.id, Tombstone(row.id, row.filePath, now))
      ensures ending != Done ==> objects == old(objects)
      ensures ending == Done ==> objects == Forgotten(old(objects), row, BodyKeys(row.id, revisions), faults)
      ensures (ending == Failed && NameIndexOk(old(meta)) && UpToDate(old(Now()), row)) ==> SameIndex(old(meta), meta)
      ensures NameIndexOk(old(meta)) ==> NameIndexOk(meta)
    {
      hide NameIndexOk, Referenced, RestoreOne;
      if row.filePath !in objects { return Refused; }
      var previous := RowRecord(row, objects[row.filePath].memory);
      var tomb := Tombstone(row.id, row.filePath, now);
      if !faults.deleteUp { return Failed; }
      DeleteKeepsSound(Now(), row.id, tomb);
      if NameIndexOk(meta) { DeleteKeepsIndex(meta, row.id, tomb); }
      StoreMetadata(Delete(meta, row.id, tomb));
      if !faults.cacheUp {
        var undone := RestoreOne(meta, previous, Pointer(row.filePath, row.contentHash));
        UndoOfDeleteThrowsIff(old(meta), row, previous, now);
        if !faults.undoUp || undone.Err? { return CompensationFailed; }
        RestoreKeepsSound(Now(), previous, Pointer(row.filePath, row.contentHash));
        if NameIndexOk(meta) { RestoreKeepsIndex(meta, previous, Pointer(row.filePath, row.contentHash)); }
        StoreMetadata(undone.value);
        if NameIndexOk(old(meta)) && row.id in old(meta).memories && old(meta).memories[row.id] == previous {
          RestoreUndoesDelete(old(meta), row.id, now);
        }
        return Failed;
      }
      NobodyPoints(Now(), row.filePath, row.id);
      RemoveKeepsSoundIff(Now(), row.filePath);
      var _ := RemoveObject(row.filePath, faults.remove);
      FreshKeysAreFree(Now(), BodyKeys(row.id, revisions));
      CleanupMutationObjects(BodyKeys(row.id, revisions), faults.bodies);
      ending := Done;
    }

    /** The clean-up of a failed rename: every key in the list is removed, or buried if its removal throws. */
    method CleanupWrittenKeys(keys: seq<(Key, MemoryId)>, now: int, faults: RenameFaults)
      requires Sound(Now()) && AllSound(trace)
      modifies this
      ensures old(trace) <= trace && (AllSound(trace) <==> Sound(Now()))
      ensures Sound(Now()) <==> !ReferencedRemoved(keys, faults.removes, meta.memories)
      ensures meta == old(meta).(tombstones := meta.tombstones)
      ensures forall i :: 0 <= i < |keys| && Removes(RemoveOf(faults.removes, keys[i].0)) ==> keys[i].0 !in objects
      ensures forall key :: key in objects ==> key in old(objects)
    {
      for i := 0 to |keys|
        invariant ObjectsOk(objects) && old(trace) <= trace && (AllSound(trace) <==> Sound(Now()))
        invariant Sound(Now()) <==> !ReferencedRemoved(keys[..i], faults.removes, meta.memories)
        invariant meta == old(meta).(tombstones := meta.tombstones)
        invariant forall j :: 0 <= j < i && Removes(RemoveOf(faults.removes, keys[j].0)) ==> keys[j].0 !in objects
        invariant forall key :: key in objects ==> key in old(objects)
      {
        RemoveOrBury(keys[i].0, keys[i].1, now, RemoveOf(faults.removes, keys[i].0), faults.buryUp);
        RemovedMore(keys[..i], keys[i], faults.removes, meta.memories);
        assert keys[..i + 1] == keys[..i] + [keys[i]];
      }
      assert keys[..|keys|] == keys;
    }

    /** The writes of a rename, the renamed memory first. `keys` collects what a failure has to clean up. */
    method WriteRenamed(texts: seq<Memory>, faults: RenameFaults) returns (ok: bool, keys: seq<(Key, MemoryId)>)
      requires Sound(Now()) && AllSound(trace) && |texts| > 0
      modifies this
      ensures Sound(Now()) && AllSound(trace) && old(trace) <= trace && meta == old(meta)
      ensures forall key :: key in old(objects) ==> key in objects && objects[key] == old(objects)[key]
      ensures forall i :: 0 <= i < |keys| ==> keys[i].0 == KeyOf(texts[0]) || keys[i].0 !in old(objects)
      ensures forall key :: key in objects && key !in old(objects)
                ==> KeyListed(keys, key) || WriteOf(faults.writes, key).WriteThrows?
      ensures |keys| > 0 && keys[0].0 == KeyOf(texts[0])
      ensures KeyOf(texts[0]) in old(objects) ==> !ok && keys == [(KeyOf(texts[0]), texts[0].id)]
      ensures ok
              ==> |keys| == |texts| && forall i :: 0 <= i < |texts|
                                         ==> keys[i].0 == KeyOf(texts[i]) && KeyOf(texts[i]) !in old(objects)
                                             && KeyOf(texts[i]) in objects
      ensures ok <==> AllStorable(old(objects), texts, faults)
    {
      hide Sound, KeyOf, WrittenSoFar, Storable;
      var first := KeyOf(texts[0]);
      keys := [(first, texts[0].id)];
      StartWriting(objects, texts, faults);
      AbsentIfFresh(Now(), first, Text(texts[0]));
      ok := WriteObject(first, Text(texts[0]), WriteOf(faults.writes, first));
      assert keys[0] == (first, texts[0].id);
      assert KeyListed(keys, first);
      if !ok { return; }
      assert [] + keys == keys;
      for i := 1 to |texts|
        invariant Sound(Now()) && AllSound(trace) && old(trace) <= trace && meta == old(meta) && |keys| == i && ok
        invariant WrittenSoFar(old(objects), objects, texts, keys, faults, i) && first !in old(objects)
      {
        WriteMore(old(objects), objects, texts, keys, faults, i);
        AbsentIfFresh(Now(), KeyOf(texts[i]), Text(texts[i]));
        ok := WriteObject(KeyOf(texts[i]), Text(texts[i]), WriteOf(faults.writes, KeyOf(texts[i])));
        if !ok { return; }
        keys := keys + [(KeyOf(texts[i]), texts[i].id)];
      }
      WrittenIs(old(objects), objects, texts, keys, faults, |texts|);
    }

    /** After a committed rename the old objects go, and with each of them its tombstone. */
    method RemoveOldObjects(rows: seq<Row>, faults: RenameFaults)
      requires Sound(Now()) && AllSound(trace)
      requires forall i :: 0 <= i < |rows| ==> !Referenced(meta.memories, rows[i].filePath)
      modifies this
      ensures Sound(Now()) && AllSound(trace) && old(trace) <= trace
      ensures meta == old(meta).(tombstones := meta.tombstones)
      ensures forall i :: 0 <= i < |rows| && Removes(RemoveOf(faults.removes, rows[i].filePath))
                ==> rows[i].filePath !in objects
      ensures forall key :: key in old(meta).tombstones && key in objects ==> key in meta.tombstones
      ensures forall key :: key in objects ==> key in old(objects)
    {
      for i := 0 to |rows|
        invariant Sound(Now()) && AllSound(trace) && old(trace) <= trace
        invariant meta == old(meta).(tombstones := meta.tombstones)
        invariant forall j :: 0 <= j < i && Removes(RemoveOf(faults.removes, rows[j].filePath))
                    ==> rows[j].filePath !in objects
        invariant forall key :: key in old(meta).tombstones && key in objects ==> key in meta.tombstones
        invariant forall key :: key in objects ==> key in old(objects)
      {
        RemoveKeepsSoundIff(Now(), rows[i].filePath);
        var ok := RemoveObject(rows[i].filePath, RemoveOf(faults.removes, rows[i].filePath));
        if ok && faults.clearUp { StoreMetadata(meta.(tombstones := meta.tombstones - {rows[i].filePath})); }
      }
    }

    /** The catch block of a rename whose metadata was replaced. */
    method UndoRename(rename: Renaming, keys: seq<(Key, MemoryId)>, now: int, faults: RenameFaults, ghost before: World)
      returns (ending: Ending)
      requires Sound(Now()) && AllSound(trace) && Sound(before) && RenamingOk(before, rename)
      requires (forall key :: key in before.objects ==> key in objects && objects[key] == before.objects[key])
      requires Replace(before.meta, rename.rows[0].name, rename.next, rename.tombs) == Ok(meta)
      requires forall i :: 0 <= i < |keys| ==> keys[i].0 !in before.objects
      requires forall key :: key in objects && key !in before.objects
                 ==> KeyListed(keys, key) || WriteOf(faults.writes, key).WriteThrows?
      modifies this
      ensures ending == Failed ==> NothingNewLeft(before.objects, objects, faults)
      ensures Sound(Now()) && AllSound(trace) && old(trace) <= trace
      ensures ending == Failed || (ending == CompensationFailed && Now() == old(Now()))
      ensures ending == CompensationFailed
              <==> !faults.undoUp || UndoThrows(before.meta, rename)
      ensures NameIndexOk(before.meta) && RenameShape(rename.rows[0].name, rename.previous, rename.next)
              ==> (NameIndexOk(meta) <==> RecordsFit(before.meta, rename.rows[0].name, rename.next))
    {
      hide NameIndexOk, RecordsFit;
      if NameIndexOk(before.meta) && RenameShape(rename.rows[0].name, rename.previous, rename.next) {
        ReplaceKeepsIndexIff(before.meta, rename.rows[0].name, rename.next, rename.tombs);
      }
      var undone := RestoreAll(meta, rename.previous, rename.next, rename.tombs);
      if !faults.undoUp || undone.Err? { return CompensationFailed; }
      forall i | 0 <= i < |rename.previous|
        ensures PointerOk(objects, rename.previous[i])
      {
        assert PointerOk(before.objects, rename.previous[i]);
      }
      RestoreAllKeepsSound(Now(), rename.previous, rename.next, rename.tombs);
      if NameIndexOk(before.meta) && RenameShape(rename.rows[0].name, rename.previous, rename.next) {
        UndoneReplaceKeepsIndexIff(before.meta, rename.rows[0].name, rename.previous, rename.next, rename.tombs);
      }
      StoreMetadata(undone.value);
      forall i | 0 <= i < |keys| ensures !Referenced(meta.memories, keys[i].0) {
        forall id | id in meta.memories
          ensures meta.memories[id].contentKey != keys[i].0
        {
          UndoneKeysAreOld(before, rename, id);
        }
      }
      CleanupWrittenKeys(keys, now, faults);
      SameIndexSameOk(undone.value, meta);
      ending := Failed;
    }

    /** What follows the writes of a rename: the records, then the cache and the compensation when it fails. */
    method CommitRename(rename: Renaming, keys: seq<(Key, MemoryId)>, now: int, faults: RenameFaults,
                        ghost before: World) returns (ending: Ending)
      requires Sound(Now()) && AllSound(trace) && Sound(before) && RenamingOk(before, rename) && meta == before.meta
      requires (forall key :: key in before.objects ==> key in objects && objects[key] == before.objects[key])
      requires Replace(before.meta, rename.rows[0].name, rename.next, rename.tombs).Ok?
      requires forall i :: 0 <= i < |keys| ==> keys[i].0 !in before.objects
      requires forall key :: key in objects && key !in before.objects
                 ==> KeyListed(keys, key) || WriteOf(faults.writes, key).WriteThrows?
      requires forall i :: 0 <= i < |rename.texts|
                 ==> KeyOf(rename.texts[i]) !in before.objects && KeyOf(rename.texts[i]) in objects
      modifies this
      ensures old(trace) <= trace && AllSound(trace) && Sound(Now())
      ensures ending == Done <==> faults.cacheUp
      ensures ending == CompensationFailed
              <==> !faults.cacheUp && (!faults.undoUp || UndoThrows(before.meta, rename))
      ensures ending != Refused
      ensures ending == Done || ending == CompensationFailed ==> RenameCommitted(before.meta, rename, meta)
      ensures ending == CompensationFailed
              ==> forall key :: key in before.objects ==> key in objects && objects[key] == before.objects[key]
      ensures ending == Done
              ==> forall i :: 0 <= i < |rename.rows| && Removes(RemoveOf(faults.removes, rename.rows[i].filePath))
                    ==> rename.rows[i].filePath !in objects
      ensures ending == Done ==> OldObjectsGone(rename.rows, Now())
      ensures ending == Failed ==> NothingNewLeft(before.objects, objects, faults)
      ensures NameIndexOk(before.meta) && RenameShape(rename.rows[0].name, rename.previous, rename.next)
              ==> (NameIndexOk(meta) <==> RecordsFit(before.meta, rename.rows[0].name, rename.next))
    {
      hide NameIndexOk, RecordsFit, RenameShape, RowOk, StillCurrent, NameTakenBy, SomeNameTaken, UndoThrows, NameFree;
      var replaced := Replace(meta, rename.rows[0].name, rename.next, rename.tombs);
      NextPoints(objects, before, rename);
      ReplaceKeepsSound(Now(), rename.rows[0].name, rename.next, rename.tombs);
      if NameIndexOk(meta) && RenameShape(rename.rows[0].name, rename.previous, rename.next) {
        ShapeIsDistinct(rename.rows[0].name, rename.previous, rename.next);
        ReplaceKeepsIndexIff(meta, rename.rows[0].name, rename.next, rename.tombs);
      }
      StoreMetadata(replaced.value);
      if !faults.cacheUp {
        ending := UndoRename(rename, keys, now, faults, before);
        return;
      }
      OldKeysAreFree(before, Now(), rename);
      OldObjectsAreBuried(before, rename);
      hide RenamingOk, Replace, Referenced, Sound;
      RemoveOldObjects(rename.rows, faults);
      SameIndexSameOk(replaced.value, meta);
      ending := Done;
    }

    /** The three kinds of writes of a rename and the compensation when the later ones fail. */
    method RenamePrepared(rename: Renaming, now: int, faults: RenameFaults) returns (ending: Ending)
      requires Sound(Now()) && AllSound(trace) && RenamingOk(Now(), rename)
      modifies this
      ensures old(trace) <= trace && ending != Refused && (AllSound(trace) ==> Sound(Now()))
      ensures AllSound(trace) <==> !RemovesItsTarget(old(Now()), rename.rows[0], rename.texts[0], faults)
      ensures AlreadyThere(old(Now()), rename.rows[0], rename.texts[0]) ==> ending == Failed
      ensures ending == Done <==> Replaces(old(Now()), rename, faults) && faults.cacheUp
      ensures ending == CompensationFailed
              <==> Replaces(old(Now()), rename, faults) && !faults.cacheUp
                   && (!faults.undoUp || UndoThrows(old(meta), rename))
      ensures ending == Done || ending == CompensationFailed ==> RenameCommitted(old(meta), rename, meta)
      ensures ending == CompensationFailed
              ==> forall key :: key in old(objects) ==> key in objects && objects[key] == old(objects)[key]
      ensures ending == Done
              ==> forall i :: 0 <= i < |rename.rows| && Removes(RemoveOf(faults.removes, rename.rows[i].filePath))
                    ==> rename.rows[i].filePath !in objects
      ensures ending == Done ==> OldObjectsGone(rename.rows, Now())
      ensures ending == Failed ==> NothingNewLeft(old(objects), objects, faults)
      ensures NameIndexOk(old(meta)) && RenameShape(rename.rows[0].name, rename.previous, rename.next)
              ==> (NameIndexOk(meta)
                   <==> !Replaces(old(Now()), rename, faults)
                        || RecordsFit(old(meta), rename.rows[0].name, rename.next))
    {
      hide NameIndexOk, RecordsFit, RenameShape, AllStorable, RowOk, StillCurrent, NameTakenBy, SomeNameTaken;
      hide Replaces, UndoThrows, NameFree;
      ghost var before := Now();
      ReplacesIff(before, rename, faults);
      var ok, keys := WriteRenamed(rename.texts, faults);
      var replaced := Replace(meta, rename.rows[0].name, rename.next, rename.tombs);
      if !ok || !faults.replaceUp || replaced.Err? {
        CleanupHitsTargetIff(before, rename, keys, faults);
        CleanupWrittenKeys(keys, now, faults);
        SameIndexSameOk(before.meta, meta);
        return Failed;
      }
      ending := CommitRename(rename, keys, now, faults, before);
    }

    /**
      `rename`. The cache gives the renamed memory's row first and the rows of the memories that refer to it after;
      `rewrite` is the replacement of the old name in the links and supersedes of a memory.
     */
    method Rename(rows: seq<Row>, nextTaken: bool, next: Name, rest: int, rewrite: Memory -> Memory, now: int,
                  faults: RenameFaults) returns (ending: Ending)
      requires Sound(Now()) && AllSound(trace) && |rows| > 0 && RowsOk(rows) && Rewrites(rewrite)
      modifies this
      ensures old(trace) <= trace && (AllSound(trace) ==> Sound(Now()))
      ensures AllSound(trace)
              <==> !(ending != Refused && RenameRemovesItsTarget(old(Now()), rows, next, rest, rewrite, faults))
      ensures ending != Refused && RenameRemovesItsTarget(old(Now()), rows, next, rest, rewrite, faults)
              ==> ending == Failed
      ensures ending == Refused
              <==> rows[0].name == next || nextTaken || exists i :: 0 <= i < |rows| && rows[i].filePath !in old(objects)
      ensures ending == Refused ==> Now() == old(Now())
      ensures ending == Done
              <==> ending != Refused && RenameReplaces(old(Now()), rows, next, rest, rewrite, now, faults)
                   && faults.cacheUp
      ensures CacheNamesApart(rows, next)
              ==> (ending == CompensationFailed
                   <==> ending != Refused && RenameReplaces(old(Now()), rows, next, rest, rewrite, now, faults)
                        && !faults.cacheUp && !faults.undoUp)
      ensures ending == CompensationFailed
              ==> forall key :: key in old(objects) ==> key in objects && objects[key] == old(objects)[key]
      ensures ending == Done || ending == CompensationFailed
              ==> RenameDone(old(Now()), Now(), rows, next, rest, rewrite, now)
      ensures ending == Done
              ==> forall i :: 0 <= i < |rows| && Removes(RemoveOf(faults.removes, rows[i].filePath))
                    ==> rows[i].filePath !in objects
      ensures ending == Done ==> OldObjectsGone(rows, Now())
      ensures ending == Failed ==> NothingNewLeft(old(objects), objects, faults)
      ensures NameIndexOk(old(meta)) && CacheNamesApart(rows, next)
              ==> (NameIndexOk(meta)
                   <==> ending == Refused || !RenameReplaces(old(Now()), rows, next, rest, rewrite, now, faults)
                        || RowsFit(old(meta), rows, next))
    {
      hide NameIndexOk, RecordsFit, RowsFit;
      if rows[0].name == next || nextTaken { return Refused; }
      for i := 0 to |rows|
        invariant forall j :: 0 <= j < i ==> rows[j].filePath in objects
      {
        if rows[i].filePath !in objects { return Refused; }
      }
      PreparedIsOk(Now(), rows, next, rest, rewrite, now);
      if CacheNamesApart(rows, next) {
        RowsFitIff(meta, Now(), rows, next, rest, rewrite, now);
        UndoWorks(meta, Prepared(rows, objects, next, rest, rewrite, now));
      }
      ending := RenamePrepared(Prepared(rows, objects, next, rest, rewrite, now), now, faults);
    }

    /** `cleanupMutationObjects`: every key is removed, whatever the removals answer. */
    method CleanupMutationObjects(keys: seq<Key>, removes: map<Key, RemoveFault>)
      requires Sound(Now())
      modifies this
      ensures meta == old(meta) && old(trace) <= trace
      ensures (keys != [] ==> trace != old(trace) && trace[|trace| - 1] == Now())
      ensures forall key :: key in objects <==> key in old(objects) && !(key in keys && Removes(RemoveOf(removes, key)))
      ensures forall key :: key in objects ==> objects[key] == old(objects)[key]
      ensures (AllSound(old(trace)) && forall i :: 0 <= i < |keys| && Removes(RemoveOf(removes, keys[i]))
                                         ==> !Referenced(meta.memories, keys[i]))
              ==> Sound(Now()) && AllSound(trace)
    {
      ghost var harmless := AllSound(trace) && forall i :: 0 <= i < |keys| && Removes(RemoveOf(removes, keys[i]))
                                                 ==> !Referenced(meta.memories, keys[i]);
      for i := 0 to |keys|
        invariant meta == old(meta) && old(trace) <= trace
        invariant (i > 0 ==> trace != old(trace) && trace[|trace| - 1] == Now())
        invariant forall key :: key in objects
                    <==> key in old(objects) && !(key in keys[..i] && Removes(RemoveOf(removes, key)))
        invariant forall key :: key in objects ==> objects[key] == old(objects)[key]
        invariant harmless ==> Sound(Now()) && AllSound(trace)
      {
        if harmless && Removes(RemoveOf(removes, keys[i])) { RemoveKeepsSoundIff(Now(), keys[i]); }
        var _ := RemoveObject(keys[i], RemoveOf(removes, keys[i]));
        assert keys[..i + 1] == keys[..i] + [keys[i]];
      }
      assert keys[..|keys|] == keys;
    }

    /** One round of the write loop: the new text, unless it is stored already, and the revision body of the old one. */
    method WriteSnapshot(memory: Memory, previous: Option<Text>, revision: RevisionId, faults: MutationFaults)
      returns (ok: bool, current: seq<Key>, revisions: seq<Key>)
      requires Sound(Now()) && AllSound(trace) && (previous.Some? ==> KeyOf(previous.value.memory) in objects)
      modifies this
      ensures Sound(Now()) && AllSound(trace) && old(trace) <= trace && meta == old(meta)
      ensures SnapshotTried(old(objects), objects, memory, revision, current, revisions, faults)
      ensures ok ==> KeyOf(memory) in objects && OnlyListedAdded(old(objects), objects, current)
      ensures ok ==> SnapshotStored(objects, memory, previous, revision)
      ensures ok <==> SnapshotWorks(old(objects), memory, previous, revision, faults)
    {
      var key := KeyOf(memory);
      ok, current, revisions := false, [], [];
      if previous.None? || key != KeyOf(previous.value.memory) {
        if !faults.headUp { return; }
        if key !in objects {
          AbsentIfFresh(Now(), key, Text(memory));
          ok := WriteObject(key, Text(memory), WriteOf(faults.writes, key));
          if !ok { return; }
          current := [key];
        }
      }
      ok := true;
      if previous.Some? {
        var body := RevisionObject(memory.id, revision);
        if body !in objects { WriteKeepsSound(Now(), body, previous.value); }
        ok := WriteObject(body, previous.value, WriteOf(faults.writes, body));
        if ok { revisions := [body]; }
      }
    }

    /** The write loop over all the memories a mutation leaves behind. */
    method WriteSnapshots(after: seq<Memory>, texts: map<MemoryId, Text>, revisions: nat -> RevisionId,
                          faults: MutationFaults)
      returns (ok: bool, current: seq<Key>, bodies: seq<Key>)
      requires Sound(Now()) && AllSound(trace) && forall id :: id in texts ==> KeyOf(texts[id].memory) in objects
      requires PreparedDistinct(Some(after))
      modifies this
      ensures Sound(Now()) && AllSound(trace) && old(trace) <= trace && meta == old(meta)
      ensures forall key :: key in old(objects) ==> key in objects
      ensures forall i :: 0 <= i < |current|
                ==> current[i] !in old(objects) && current[i] in objects && KeyOfSome(after, current[i])
      ensures forall i :: 0 <= i < |bodies| ==> bodies[i].RevisionObject?
      ensures ok
              ==> forall j :: 0 <= j < |after|
                    ==> KeyOf(after[j]) in objects && (KeyOf(after[j]) in old(objects) || KeyOf(after[j]) in current)
      ensures ok <==> WritesWork(old(objects), after, texts, revisions, faults)
      ensures ok ==> SnapshotsStored(objects, after, texts, revisions)
      ensures forall k :: k in objects && k !in old(objects) && k.MemoryObject?
                ==> k in current || WriteOf(faults.writes, k).WriteThrows?
    {
      hide Sound, KeyOfSome, SnapshotWorks, KeyOf, SnapshotTried, OnlyListedAdded, WrittenFor, OwnKey, NthWorks;
      hide SnapshotStored;
      ok, current, bodies := true, [], [];
      NothingWritten(objects, after, revisions, faults);
      for n := 0 to |after|
        invariant ok && Sound(Now()) && AllSound(trace) && old(trace) <= trace && meta == old(meta)
        invariant WrittenFor(old(objects), objects, after, revisions, current, bodies, faults, n)
        invariant OnlyListedAdded(old(objects), objects, current)
        invariant forall j: nat :: j < n ==> NthWorks(old(objects), after, texts, revisions, faults, j)
        invariant forall id :: id in texts ==> KeyOf(texts[id].memory) in objects
        invariant forall j :: 0 <= j < n ==> KeyOf(after[j]) in objects
        invariant SnapshotsStored(objects, after[..n], texts, revisions)
      {
        var memory := after[n];
        ghost var stored := objects;
        WorksLater(old(objects), objects, after, texts, revisions, current, bodies, faults, n);
        var written, keys, body := WriteSnapshot(memory, TextBefore(texts, memory.id), revisions(n), faults);
        WrittenMore(old(objects), stored, objects, after, revisions, current, keys, bodies, body, faults, n);
        StoredMore(stored, objects, after, texts, revisions, keys, body, faults, n, written);
        current, bodies := current + keys, bodies + body;
        ok := written;
        if !ok {
          WhatIsWritten(old(objects), objects, after, revisions, current, bodies, faults, n + 1);
          return;
        }
      }
      WhatIsWritten(old(objects), objects, after, revisions, current, bodies, faults, |after|);
      AllAreListed(old(objects), objects, after, current);
      assert after[..|after|] == after;
    }

    /**
      Everything a mutation reads before its first write. It stops with an answer, or goes on with the memories to
      store.
     */
    method ReadMutation(c: Commit, ids: seq<MemoryId>, cached: set<MemoryId>, createName: Option<Name>,
                        prepare: map<MemoryId, Memory> -> Option<seq<Memory>>, faults: MutationFaults)
      returns (stop: Option<MutationEnding>, after: seq<Memory>, texts: map<MemoryId, Text>)
      requires Sound(Now())
      ensures stop.None?
              ==> c.operation !in meta.operations && forall id :: id in texts ==> KeyOf(texts[id].memory) in objects
      ensures stop.None? <==> ReadyToWrite(Now(), c, ids, cached, createName, prepare)
      ensures stop.None? ==> prepare(Stored(Now(), ids)) == Some(after) && texts == TextsRead(Now(), ids)
      ensures stop != Some(Returned(Applied))
      ensures c.operation !in meta.operations
              ==> && (stop == Some(Threw) <==> ThrowsBeforeWriting(Now(), c, ids, cached, createName, prepare))
                  && (stop.Some? ==> stop.value == Threw || stop.value == Returned(Conflict))
      ensures c.operation in meta.operations
              ==> stop == Some(if meta.operations[c.operation] != c.payload then Returned(Conflict)
                               else if faults.reindexUp then Returned(AlreadyApplied) else Threw)
    {
      hide SettingsAllow;
      after, texts := [], map[];
      if c.operation in meta.operations {
        if PriorOutcome(meta, c).AlreadyApplied? && !faults.reindexUp { return Some(Threw), after, texts; }
        return Some(Returned(PriorOutcome(meta, c))), after, texts;
      }
      var current: map<MemoryId, Memory> := map[];
      for i := 0 to |ids|
        invariant forall id :: id in texts ==> KeyOf(texts[id].memory) in objects
        invariant HashesAsExpected(Now(), c, ids[..i]) && current == Stored(Now(), ids[..i])
        invariant texts == TextsRead(Now(), ids[..i])
        invariant forall j :: 0 <= j < i ==> ids[j] in cached
      {
        assert ids[..i + 1] == ids[..i] + [ids[i]];
        var id := ids[i];
        if id !in cached || id !in meta.memories {
          StopsAtMissing(Now(), c, ids, cached, i);
          return Some(if c.action.Restore? then Threw else Returned(Conflict)), after, texts;
        }
        var canonical := meta.memories[id];
        StopsAtHash(Now(), c, ids, cached, i);
        if canonical.contentKey !in objects { return Some(Returned(Conflict)), after, texts; }
        var text := objects[canonical.contentKey];
        if ExpectedHash(c.before, id) != Some(Sha256(text)) || canonical.contentHash != Sha256(text) {
          return Some(Returned(Conflict)), after, texts;
        }
        if text.memory.id != id { return Some(Returned(Conflict)), after, texts; }
        assert PointerOk(objects, meta.memories[id]);
        texts, current := texts[id := text], current[id := text.memory];
      }
      assert ids[..|ids|] == ids;
      AllAreRead(Now(), c, ids, cached);
      if |c.before| != |ids| { return Some(Returned(Conflict)), after, texts; }
      if createName.Some? && createName.value in meta.names { return Some(Returned(Conflict)), after, texts; }
      if !SettingsAllow(meta, c) { return Some(Returned(Conflict)), after, texts; }
      var prepared := prepare(current);
      if prepared.None? { return Some(Threw), after, texts; }
      stop, after := None, prepared.value;
    }

    /** `commitMutation` over the network: the transaction may take effect although its caller sees it throw. */
    method CommitMutation(c: Commit, records: seq<Record>, fault: CommitFault) returns (answer: Option<Outcome>)
      requires Sound(Now()) && AllSound(trace) && forall i :: 0 <= i < |records| ==> PointerOk(objects, records[i])
      modifies this
      ensures Sound(Now()) && AllSound(trace) && old(trace) <= trace && objects == old(objects)
      ensures meta == if fault.CommitWorks? || fault.applied then Committed(old(meta), c, records).1 else old(meta)
      ensures answer == if fault.CommitWorks? then AnswerOf(Committed(old(meta), c, records).0) else None
    {
      var result := Committed(meta, c, records);
      if fault.CommitWorks? || fault.applied {
        CommitKeepsSound(Now(), c, records);
        StoreMetadata(result.1);
      }
      answer := if fault.CommitWorks? then AnswerOf(result.0) else None;
    }

    /**
      `applyMutation`. Every world it passes through is sound, unless the commit took effect, an exception then reached
      the catch block, the look-up of the operation failed there, and the clean-up removed an object that had just been
      written.
     */
    method ApplyMutation(c: Commit, ids: seq<MemoryId>, cached: set<MemoryId>, createName: Option<Name>,
                         prepare: map<MemoryId, Memory> -> Option<seq<Memory>>, revisions: nat -> RevisionId,
                         faults: MutationFaults)
      returns (ending: MutationEnding, ghost written: seq<Key>)
      requires Sound(Now()) && AllSound(trace) && PreparesDistinct(prepare)
      modifies this
      ensures old(trace) <= trace
      ensures AllSound(trace)
              <==> !(&& Takes(old(Now()), c, ids, cached, createName, prepare, revisions, faults) && LosesSight(faults)
                     && RemovesNewText(old(Now()), ids, prepare, faults.removes))
      ensures CommittedNow(old(meta), meta, c)
              <==> Takes(old(Now()), c, ids, cached, createName, prepare, revisions, faults)
      ensures forall i :: 0 <= i < |written|
                ==> written[i] !in old(objects)
                    && (CommittedNow(old(meta), meta, c) ==> Referenced(meta.memories, written[i]))
      ensures !CommittedNow(old(meta), meta, c) ==> meta == old(meta)
      ensures CommittedNow(old(meta), meta, c) ==> MutationStored(old(Now()), c, ids, prepare, meta)
      ensures CommittedNow(old(meta), meta, c) ==> AllWritten(old(Now()), ids, prepare, written)
      ensures CommittedNow(old(meta), meta, c) ==> ending == CommittedEnding(faults)
      ensures CommittedNow(old(meta), meta, c) && !LosesSight(faults)
              ==> SnapshotsStored(objects, prepare(Stored(old(Now()), ids)).value, TextsRead(old(Now()), ids),
                                  revisions)
      ensures c.operation in old(meta).operations
              ==> ending == if old(meta).operations[c.operation] != c.payload then Returned(Conflict)
                            else if faults.reindexUp then Returned(AlreadyApplied) else Threw
      ensures ending == Returned(Applied) ==> CommittedNow(old(meta), meta, c)
      ensures ending == Returned(Conflict) ==> meta == old(meta)
      ensures c.operation !in old(meta).operations && !ReadyToWrite(old(Now()), c, ids, cached, createName, prepare)
              ==> Now() == old(Now())
                  && ending == if ThrowsBeforeWriting(old(Now()), c, ids, cached, createName, prepare)
                               then Threw else Returned(Conflict)
      ensures ReadyToWrite(old(Now()), c, ids, cached, createName, prepare) && !CommittedNow(old(meta), meta, c)
              ==> ending == if RefusedByCommit(old(Now()), c, ids, prepare, revisions, faults) then Returned(Conflict)
                            else Threw
      ensures !CommittedNow(old(meta), meta, c)
              ==> forall i :: 0 <= i < |written| && Removes(RemoveOf(faults.removes, written[i]))
                    ==> written[i] !in objects
      ensures forall key :: key in objects && key !in old(objects) && key.MemoryObject?
                ==> key in written || WriteOf(faults.writes, key).WriteThrows?
      ensures NameIndexOk(old(meta)) && PreparesInPlace(old(Now()), ids, prepare) ==> NameIndexOk(meta)
    {
      hide Committed, SomeRemoved, LosesSight, Referenced, KeyOfSome, Stored, HashesAsExpected, ObjectsOk, RecordsOk;
      hide NameIndexOk, PreparesInPlace, RemovesNewText, WritesWork, TextsRead, AllWritten, SettingsAllow;
      hide SnapshotsStored, ThrowsBeforeWriting, ReadsUpTo, RestoresNothing;
      written := [];
      var stop, after, texts := ReadMutation(c, ids, cached, createName, prepare, faults);
      if stop.Some? { return stop.value, []; }
      assert PreparedDistinct(Some(after));
      var ok, current, bodies := WriteSnapshots(after, texts, revisions, faults);
      written := current;
      if !ok {
        FreshKeysAreFree(old(Now()), current + bodies);
        CleanupMutationObjects(current + bodies, faults.removes);
        return Threw, written;
      }
      var records := OwnRecords(after);
      OwnRecordsPoint(objects, after);
      var answer := CommitMutation(c, records, faults.commit);
      CommitReferences(old(meta), c, after, records, meta, current);
      NewIsNotKnown(old(meta), c, records);
      NewTextsRemovedIff(old(Now()), ids, prepare, after, current, faults.removes);
      if NameIndexOk(old(meta)) && PreparesInPlace(old(Now()), ids, prepare) {
        MutationKeepsIndex(old(Now()), c, ids, prepare);
      }
      ending := Settle(c, current, bodies, answer, faults, old(Now()));
    }

    /** What follows the commit: the clean-up of a refused one, the cache, and the catch block. */
    method Settle(c: Commit, current: seq<Key>, bodies: seq<Key>, answer: Option<Outcome>, faults: MutationFaults,
                  ghost before: World) returns (ending: MutationEnding)
      requires Sound(Now()) && AllSound(trace) && Sound(before) && c.operation !in before.meta.operations
      requires (forall i :: 0 <= i < |current| ==> current[i] !in before.objects)
      requires forall i :: 0 <= i < |bodies| ==> bodies[i].RevisionObject?
      requires CommittedNow(before.meta, meta, c)
               ==> meta.operations[c.operation] == c.payload
                   && forall i :: 0 <= i < |current| ==> Referenced(meta.memories, current[i])
      requires !CommittedNow(before.meta, meta, c) ==> meta == before.meta
      requires answer.Some? ==> faults.commit.CommitWorks?
      requires answer.None? && CommittedNow(before.meta, meta, c) ==> faults.commit.CommitThrows?
      requires answer.Some? ==> (answer.value.Applied? <==> CommittedNow(before.meta, meta, c))
      modifies this
      ensures old(trace) <= trace && meta == old(meta)
      ensures AllSound(trace)
              <==> !(CommittedNow(before.meta, meta, c) && LosesSight(faults) && SomeRemoved(current, faults.removes))
      ensures ending == Returned(Applied) ==> CommittedNow(before.meta, meta, c)
      ensures ending == Returned(Conflict) ==> meta == before.meta
      ensures CommittedNow(before.meta, meta, c) ==> ending == CommittedEnding(faults)
      ensures CommittedNow(before.meta, meta, c) && !LosesSight(faults) ==> objects == old(objects)
      ensures !CommittedNow(before.meta, meta, c)
              ==> ending == if answer.Some? then Returned(answer.value) else Threw
      ensures !CommittedNow(before.meta, meta, c)
              ==> forall i :: 0 <= i < |current| && Removes(RemoveOf(faults.removes, current[i]))
                    ==> current[i] !in objects
      ensures forall key :: key in objects ==> key in old(objects)
    {
      if !CommittedNow(before.meta, meta, c) { FreshKeysAreFree(before, current + bodies); }
      if answer.Some? && !answer.value.Applied? {
        CleanupMutationObjects(current + bodies, faults.removes);
        return Returned(answer.value);
      }
      if answer.Some? && (faults.cacheUp || faults.reindexUp) { return Returned(Applied); }
      if faults.checkUp && c.operation in meta.operations && meta.operations[c.operation] == c.payload {
        return if faults.rebuildUp then Returned(AlreadyApplied) else Threw;
      }
      if CommittedNow(before.meta, meta, c) { RevisionsAreFree(Now(), current, bodies, faults.removes); }
      CleanupMutationObjects(current + bodies, faults.removes);
      if CommittedNow(before.meta, meta, c) && SomeRemoved(current, faults.removes) {
        RemovedPointerIsUnsound(Now(), current, faults.removes);
      }
      ending := Threw;
    }
  }

  /** A key that is free before its object is written stays harmless whatever the write does. */
  lemma AbsentIfFresh(w: World, key: Key, text: Text)
    requires Sound(w) && key == KeyOf(text.memory)
    ensures key !in w.objects ==> Sound(w.(objects := w.objects[key := text]))
  {
    if key !in w.objects { WriteKeepsSound(w, key, text); }
  }

  /** Once the owner's record points elsewhere, its old object is no longer pointed at. */
  lemma OnlyOwnerPoints(w: World, key: Key, id: MemoryId)
    requires Sound(w) && key.MemoryObject? && key.hash.text.memory.id == id && id in w.meta.memories
    requires w.meta.memories[id].contentKey != key
    ensures !Referenced(w.meta.memories, key)
  {
    forall other | other in w.meta.memories ensures w.meta.memories[other].contentKey != key {
      if w.meta.memories[other].contentKey == key { KeyDeterminesId(w, other, key); }
    }
  }

  lemma NobodyPoints(w: World, key: Key, id: MemoryId)
    requires Sound(w) && key.MemoryObject? && key.hash.text.memory.id == id && id !in w.meta.memories
    ensures !Referenced(w.meta.memories, key)
  {
    forall other | other in w.meta.memories ensures w.meta.memories[other].contentKey != key {
      if w.meta.memories[other].contentKey == key { KeyDeterminesId(w, other, key); }
    }
  }

  /** Taking a deletion back throws exactly if the name of the row is another memory's by then. */
  lemma UndoOfDeleteThrowsIff(m: Meta, row: Row, previous: Record, now: int)
    requires previous.id == row.id && previous.name == row.name && previous.contentKey == row.filePath
    ensures RestoreOne(Delete(m, row.id, Tombstone(row.id, row.filePath, now)), previous,
                       Pointer(row.filePath, row.contentHash)).Err?
            <==> NameLost(m, row)
  {
  }

  // ----- Rename -----

  /** Each of the objects a rename has replaced is gone or waits under a tombstone to be collected. */
  ghost predicate OldObjectsGone(rows: seq<Row>, w: World) {
    forall i :: 0 <= i < |rows| ==> rows[i].filePath !in w.objects || rows[i].filePath in w.meta.tombstones
  }

  lemma OldObjectsAreBuried(w: World, r: Renaming)
    requires RenamingOk(w, r) && Replace(w.meta, r.rows[0].name, r.next, r.tombs).Ok?
    ensures var s := Replace(w.meta, r.rows[0].name, r.next, r.tombs).value;
            forall i :: 0 <= i < |r.rows| ==> r.rows[i].filePath in s.tombstones
  {
    var dropped := if HasName(r.next, r.rows[0].name) then w.meta
                   else w.meta.(names := w.meta.names - {r.rows[0].name});
    forall i | 0 <= i < |r.rows|
      ensures r.rows[i].filePath in BuryAll(SetAll(dropped, r.next), r.tombs).tombstones
    {
      BuriedIsThere(SetAll(dropped, r.next), r.tombs, i);
    }
  }

  lemma {:induction false} BuriedIsThere(m: Meta, tombs: seq<Tombstone>, i: nat)
    requires i < |tombs|
    ensures tombs[i].contentKey in BuryAll(m, tombs).tombstones
  {
    if i < |tombs| - 1 { BuriedIsThere(m, tombs[..|tombs| - 1], i); }
  }

  /** A failed rename leaves no new object behind, unless its removal failed too or its write threw after storing it. */
  ghost predicate NothingNewLeft(before: map<Key, Text>, after: map<Key, Text>, faults: RenameFaults) {
    forall key :: key in after
      ==> key in before || !Removes(RemoveOf(faults.removes, key)) || WriteOf(faults.writes, key).WriteThrows?
  }

  /** A removal among the listed keys took an object that a record points at. */
  ghost predicate ReferencedRemoved(keys: seq<(Key, MemoryId)>, removes: map<Key, RemoveFault>, memories: map<MemoryId,
                                    Record>) {
    exists i :: 0 <= i < |keys| && Removes(RemoveOf(removes, keys[i].0)) && Referenced(memories, keys[i].0)
  }

  lemma RemovedMore(keys: seq<(Key, MemoryId)>, more: (Key, MemoryId), removes: map<Key, RemoveFault>,
                    memories: map<MemoryId, Record>)
    ensures ReferencedRemoved(keys + [more], removes, memories)
            <==> ReferencedRemoved(keys, removes, memories)
                 || (Removes(RemoveOf(removes, more.0)) && Referenced(memories, more.0))
  {
    var all := keys + [more];
    if ReferencedRemoved(keys, removes, memories) {
      var i :| 0 <= i < |keys| && Removes(RemoveOf(removes, keys[i].0)) && Referenced(memories, keys[i].0);
      assert all[i] == keys[i];
    }
    assert all[|keys|] == more;
  }

  ghost predicate KeyListed(keys: seq<(Key, MemoryId)>, key: Key) {
    exists i :: 0 <= i < |keys| && keys[i].0 == key
  }

  lemma ListedMore(keys: seq<(Key, MemoryId)>, more: (Key, MemoryId))
    ensures KeyListed(keys + [more], more.0) && forall key :: KeyListed(keys, key) ==> KeyListed(keys + [more], key)
  {
    assert (keys + [more])[|keys|] == more;
    forall key | KeyListed(keys, key) ensures KeyListed(keys + [more], key) {
      var i :| 0 <= i < |keys| && keys[i].0 == key;
      assert (keys + [more])[i].0 == key;
    }
  }

  /** Everything a rename has computed before its first write; the renamed memory comes first in each list. */
  datatype Renaming = Renaming(rows: seq<Row>, texts: seq<Memory>, previous: seq<Record>, next: seq<Record>,
                               tombs: seq<Tombstone>)

  /** The i-th write of a rename succeeds: it works, and its key is neither there nor that of an earlier text. */
  ghost predicate Storable(objects: map<Key, Text>, texts: seq<Memory>, faults: RenameFaults, i: nat)
    requires i < |texts|
  {
    && KeyOf(texts[i]) !in objects && WriteOf(faults.writes, KeyOf(texts[i])).WriteWorks?
    && forall j :: 0 <= j < i ==> KeyOf(texts[j]) != KeyOf(texts[i])
  }

  ghost predicate AllStorable(objects: map<Key, Text>, texts: seq<Memory>, faults: RenameFaults) {
    forall i :: 0 <= i < |texts| ==> Storable(objects, texts, faults, i)
  }

  /** After i successful writes of a rename: their keys are listed, and they are all that was added. */
  ghost predicate WrittenSoFar(before: map<Key, Text>, objects: map<Key, Text>, texts: seq<Memory>,
                               keys: seq<(Key, MemoryId)>, faults: RenameFaults, i: nat)
    requires i <= |texts|
  {
    && |keys| == i && (forall key :: key in before ==> key in objects && objects[key] == before[key])
    && (forall j :: 0 <= j < i ==> keys[j] == (KeyOf(texts[j]), texts[j].id) && KeyOf(texts[j]) in objects)
    && (forall key :: key in objects && key !in before ==> KeyListed(keys, key))
    && forall j :: 0 <= j < i ==> Storable(before, texts, faults, j)
  }

  lemma WrittenIs(before: map<Key, Text>, objects: map<Key, Text>, texts: seq<Memory>, keys: seq<(Key, MemoryId)>,
                  faults: RenameFaults, i: nat)
    requires 0 < i <= |texts| && WrittenSoFar(before, objects, texts, keys, faults, i)
    ensures |keys| == i && keys[0].0 == KeyOf(texts[0]) && KeyOf(texts[0]) !in before
    ensures forall key :: key in before ==> key in objects && objects[key] == before[key]
    ensures forall j :: 0 <= j < i
              ==> keys[j].0 == KeyOf(texts[j]) && KeyOf(texts[j]) !in before && KeyOf(texts[j]) in objects
    ensures forall key :: key in objects && key !in before ==> KeyListed(keys, key)
    ensures i == |texts| ==> AllStorable(before, texts, faults)
  {
    forall j | 0 <= j < i ensures KeyOf(texts[j]) !in before { assert Storable(before, texts, faults, j); }
  }

  lemma StartWriting(objects: map<Key, Text>, texts: seq<Memory>, faults: RenameFaults)
    requires |texts| > 0
    ensures var key := KeyOf(texts[0]);
            && (Storable(objects, texts, faults, 0) <==> key !in objects && WriteOf(faults.writes, key).WriteWorks?)
            && (AllStorable(objects, texts, faults) ==> Storable(objects, texts, faults, 0))
            && (Storable(objects, texts, faults, 0)
                ==> WrittenSoFar(objects, objects[key := Text(texts[0])], texts, [(key, texts[0].id)], faults, 1))
  {
    assert [(KeyOf(texts[0]), texts[0].id)][0].0 == KeyOf(texts[0]);
  }

  /** One more write succeeds exactly if it is storable, and whatever it does it adds at most its own key. */
  lemma WriteMore(before: map<Key, Text>, objects: map<Key, Text>, texts: seq<Memory>, keys: seq<(Key, MemoryId)>,
                  faults: RenameFaults, i: nat)
    requires 0 < i < |texts| && WrittenSoFar(before, objects, texts, keys, faults, i)
    ensures var key := KeyOf(texts[i]);
            && (Storable(before, texts, faults, i) <==> key !in objects && WriteOf(faults.writes, key).WriteWorks?)
            && (AllStorable(before, texts, faults) ==> Storable(before, texts, faults, i))
            && (Storable(before, texts, faults, i)
                ==> WrittenSoFar(before, objects[key := Text(texts[i])], texts, keys + [(key, texts[i].id)], faults,
                                 i + 1))
    ensures |keys| == i && keys[0].0 == KeyOf(texts[0])
    ensures forall key :: key in before ==> key in objects && objects[key] == before[key]
    ensures forall j :: 0 <= j < i ==> keys[j].0 !in before
    ensures forall key :: key in objects && key !in before ==> KeyListed(keys, key)
  {
    var key := KeyOf(texts[i]);
    ListedMore(keys, (key, texts[i].id));
    forall j | 0 <= j < i ensures keys[j].0 !in before && keys[j].0 in objects {
      assert Storable(before, texts, faults, j);
    }
    forall j | 0 <= j < i ensures keys[j].0 == KeyOf(texts[j]) {}
    if key in objects && key !in before {
      var j :| 0 <= j < i && keys[j].0 == key;
      assert KeyOf(texts[j]) == key;
    }
  }

  /** A rename gets as far as replacing the records. */
  ghost predicate Replaces(w: World, r: Renaming, faults: RenameFaults)
    requires |r.rows| > 0
  {
    && AllStorable(w.objects, r.texts, faults) && faults.replaceUp
    && forall i :: 0 <= i < |r.next| ==> NameFree(w.meta, r.next[i].id, r.next[i].name)
  }

  lemma ReplacesIff(w: World, r: Renaming, faults: RenameFaults)
    requires RenamingOk(w, r)
    ensures Replaces(w, r, faults)
            <==> AllStorable(w.objects, r.texts, faults) && faults.replaceUp
                 && Replace(w.meta, r.rows[0].name, r.next, r.tombs).Ok?
  {
    hide AllStorable;
    assert |r.next| > 0;
    if Replaces(w, r, faults) { assert NameFree(w.meta, r.next[0].id, r.next[0].name); }
  }

  /** Taking the rename back would throw. */
  ghost predicate UndoThrows(m: Meta, r: Renaming)
    requires |r.rows| > 0
  {
    var replaced := Replace(m, r.rows[0].name, r.next, r.tombs);
    replaced.Ok? && RestoreAll(replaced.value, r.previous, r.next, r.tombs).Err?
  }

  lemma UndoWorks(m: Meta, r: Renaming)
    requires |r.rows| > 0 && RenameShape(r.rows[0].name, r.previous, r.next) && r.next[0].name != r.rows[0].name
    ensures !UndoThrows(m, r)
  {
    if Replace(m, r.rows[0].name, r.next, r.tombs).Ok? {
      UndoOfReplaceWorks(m, r.rows[0].name, r.previous, r.next, r.tombs);
    }
  }

  ghost predicate RenameReplaces(w: World, rows: seq<Row>, next: Name, rest: int, rewrite: Memory -> Memory, now: int,
                                 faults: RenameFaults)
  {
    && |rows| > 0 && (forall i :: 0 <= i < |rows| ==> rows[i].filePath in w.objects)
    && Replaces(w, Prepared(rows, w.objects, next, rest, rewrite, now), faults)
  }

  /** The cache has one row for each name, and none for the new one. */
  ghost predicate CacheNamesApart(rows: seq<Row>, next: Name) {
    && (forall i, j :: 0 <= i < j < |rows| ==> rows[i].name != rows[j].name)
    && forall i :: 0 <= i < |rows| ==> rows[i].name != next
  }

  /**
    The cache rows of a rename fit the documents: a memory recorded under the old name is among theirs, and each of
    their memories is recorded under its row's name or the old one, the renamed one under the old or the new one.
   */
  ghost predicate RowsFit(m: Meta, rows: seq<Row>, next: Name)
    requires |rows| > 0
  {
    && (rows[0].name in m.names ==> exists i :: 0 <= i < |rows| && rows[i].id == m.names[rows[0].name].memoryId)
    && forall i :: 0 <= i < |rows| && rows[i].id in m.memories
         ==> m.memories[rows[i].id].name == rows[0].name
             || m.memories[rows[i].id].name == if i == 0 then next else rows[i].name
  }

  /** They do if each of them carries the name its memory is recorded under. */
  lemma CurrentRowsFit(m: Meta, rows: seq<Row>, next: Name)
    requires NameIndexOk(m) && |rows| > 0
    requires forall i :: 0 <= i < |rows| ==> rows[i].id in m.memories && m.memories[rows[i].id].name == rows[i].name
    ensures RowsFit(m, rows, next)
  {
    assert MemoryOk(m, rows[0].id);
  }

  lemma ShapeIsDistinct(oldName: Name, previous: seq<Record>, next: seq<Record>)
    requires RenameShape(oldName, previous, next)
    ensures DistinctIds(next)
  {
  }

  lemma PreparedRecords(w: World, rows: seq<Row>, next: Name, rest: int, rewrite: Memory -> Memory, now: int)
    requires Sound(w) && |rows| > 0 && RowsOk(rows) && Rewrites(rewrite)
    requires forall i :: 0 <= i < |rows| ==> rows[i].filePath in w.objects
    ensures var r := Prepared(rows, w.objects, next, rest, rewrite, now);
            && |r.next| == |rows| && |r.previous| == |rows|
            && (forall i :: 0 <= i < |rows| ==> r.previous[i].id == rows[i].id && r.previous[i].name == rows[i].name)
            && forall i :: 0 <= i < |rows|
                 ==> r.next[i].id == rows[i].id && r.next[i].name == if i == 0 then next else rows[i].name
  {
    PreparedIsOk(w, rows, next, rest, rewrite, now);
    var r := Prepared(rows, w.objects, next, rest, rewrite, now);
    forall i | 0 <= i < |rows|
      ensures r.next[i].id == rows[i].id && r.next[i].name == if i == 0 then next else rows[i].name
    {
      assert r.next[i] == OwnRecord(r.texts[i]);
    }
  }

  lemma RowsFitIff(m: Meta, w: World, rows: seq<Row>, next: Name, rest: int, rewrite: Memory -> Memory, now: int)
    requires Sound(w) && |rows| > 0 && RowsOk(rows) && Rewrites(rewrite) && CacheNamesApart(rows, next)
    requires forall i :: 0 <= i < |rows| ==> rows[i].filePath in w.objects
    ensures var r := Prepared(rows, w.objects, next, rest, rewrite, now);
            && RenameShape(rows[0].name, r.previous, r.next) && r.next[0].name == next
            && (RecordsFit(m, rows[0].name, r.next) <==> RowsFit(m, rows, next))
  {
    hide Prepared, RenamingOk, NameIndexOk, Sound;
    var r := Prepared(rows, w.objects, next, rest, rewrite, now);
    PreparedRecords(w, rows, next, rest, rewrite, now);
    forall i | 0 <= i < |rows| ensures Find(r.next, rows[i].id).Some? { FindIs(r.next, r.next[i]); }
    if rows[0].name in m.names && Find(r.next, m.names[rows[0].name].memoryId).Some? {
      var found := Find(r.next, m.names[rows[0].name].memoryId).value;
      var i :| 0 <= i < |r.next| && r.next[i] == found;
      assert rows[i].id == m.names[rows[0].name].memoryId;
    }
  }

  ghost predicate RowsOk(rows: seq<Row>) {
    (forall i :: 0 <= i < |rows| ==> RowOk(rows[i])) && forall i, j :: 0 <= i < j < |rows| ==> rows[i].id != rows[j].id
  }

  /** Rewriting references changes neither id nor name. */
  ghost predicate Rewrites(rewrite: Memory -> Memory) {
    forall m :: rewrite(m).id == m.id && rewrite(m).name == m.name
  }

  function RenamedMemory(m: Memory, next: Name, rest: int, rewrite: Memory -> Memory): Memory {
    Memory(m.id, next, rewrite(m).links, m.active, rest)
  }

  /** The record of the memory to be renamed already points at the object the rename is about to write. */
  ghost predicate AlreadyThere(w: World, row: Row, renamed: Memory) {
    row.id in w.meta.memories && w.meta.memories[row.id].contentKey == KeyOf(renamed)
  }

  /** The previous record of a reference is built from its already rewritten memory, as the source builds it. */
  function Prepared(rows: seq<Row>, objects: map<Key, Text>, next: Name, rest: int, rewrite: Memory -> Memory,
                    now: int): Renaming
    requires |rows| > 0 && forall i :: 0 <= i < |rows| ==> rows[i].filePath in objects
  {
    var read := seq(|rows|, (i: nat)
      requires i < |rows| && rows[i].filePath in objects => objects[rows[i].filePath].memory);
    var texts := seq(|rows|, (i: nat)
      requires i < |read| => if i == 0 then RenamedMemory(read[0], next, rest, rewrite) else rewrite(read[i]));
    var previous := seq(|rows|, (i: nat)
      requires i < |rows| && i < |texts| && i < |read| => RowRecord(rows[i], if i == 0 then read[0] else texts[i]));
    Renaming(rows, texts, previous,
             seq(|rows|, (i: nat) requires i < |texts| => OwnRecord(texts[i])),
             seq(|rows|, (i: nat) requires i < |rows| => Tombstone(rows[i].id, rows[i].filePath, now)))
  }

  ghost predicate RenamingOk(w: World, r: Renaming) {
    && |r.rows| > 0 && |r.texts| == |r.rows| && |r.previous| == |r.rows| && |r.next| == |r.rows| && RowsOk(r.rows)
    && (forall i :: 0 <= i < |r.rows| ==> r.rows[i].filePath in w.objects && r.texts[i].id == r.rows[i].id)
    && (forall i :: 0 <= i < |r.rows|
          ==> r.previous[i].id == r.rows[i].id && r.previous[i].contentKey == r.rows[i].filePath
              && PointerOk(w.objects, r.previous[i]))
    && (forall i :: 0 <= i < |r.rows| ==> r.next[i] == OwnRecord(r.texts[i]))
    && |r.tombs| == |r.rows| && (forall i :: 0 <= i < |r.rows| ==> r.tombs[i].contentKey == r.rows[i].filePath)
    && (forall i :: 0 <= i < |r.rows| ==> r.previous[i].name == r.rows[i].name)
    && forall i :: 0 < i < |r.rows| ==> r.texts[i].name == r.rows[i].name
  }

  /**
    The failing case of a rename: its first write is refused because the record points at that object, and the clean-up
    removes it.
   */
  ghost predicate RemovesItsTarget(w: World, row: Row, renamed: Memory, faults: RenameFaults) {
    AlreadyThere(w, row, renamed) && Removes(RemoveOf(faults.removes, KeyOf(renamed)))
  }

  ghost predicate RenameRemovesItsTarget(w: World, rows: seq<Row>, next: Name, rest: int, rewrite: Memory -> Memory,
                                         faults: RenameFaults) {
    && |rows| > 0 && rows[0].filePath in w.objects
    && RemovesItsTarget(w, rows[0], RenamedMemory(w.objects[rows[0].filePath].memory, next, rest, rewrite), faults)
  }

  lemma PreparedIsOk(w: World, rows: seq<Row>, next: Name, rest: int, rewrite: Memory -> Memory, now: int)
    requires Sound(w) && |rows| > 0 && RowsOk(rows) && Rewrites(rewrite)
    requires forall i :: 0 <= i < |rows| ==> rows[i].filePath in w.objects
    ensures RenamingOk(w, Prepared(rows, w.objects, next, rest, rewrite, now))
    ensures Prepared(rows, w.objects, next, rest, rewrite, now).texts[0].name == next
  {
    forall i | 0 <= i < |rows|
      ensures Sha256(w.objects[rows[i].filePath]) == rows[i].contentHash
      ensures w.objects[rows[i].filePath].memory.id == rows[i].id
    {
      assert RowOk(rows[i]) && ObjectsOk(w.objects);
    }
    var r := Prepared(rows, w.objects, next, rest, rewrite, now);
    forall i | 0 <= i < |rows|
      ensures r.texts[i].id == rows[i].id && r.previous[i].id == rows[i].id && PointerOk(w.objects, r.previous[i])
      ensures r.next[i] == OwnRecord(r.texts[i]) && r.previous[i].name == rows[i].name
      ensures i > 0 ==> r.texts[i].name == rows[i].name
    {
      assert RowOk(rows[i]) && rewrite(w.objects[rows[i].filePath].memory).id == rows[i].id;
      assert rewrite(w.objects[rows[i].filePath].memory).name == rows[i].name;
    }
  }

  lemma NextIsFound(w: World, r: Renaming, i: nat)
    requires RenamingOk(w, r) && i < |r.rows|
    ensures Find(r.next, r.rows[i].id) == Some(r.next[i])
  {
    assert r.next[i].id == r.rows[i].id;
    FindIs(r.next, r.next[i]);
  }

  /**
    Of the keys a failed rename cleans up, only the first can be pointed at, and only if the record was at it before.
   */
  lemma WrittenKeysAreFree(w: World, r: Renaming, keys: seq<(Key, MemoryId)>)
    requires Sound(w) && RenamingOk(w, r)
    requires forall i :: 0 <= i < |keys| ==> keys[i].0 == KeyOf(r.texts[0]) || keys[i].0 !in w.objects
    ensures forall i :: 0 <= i < |keys| && Referenced(w.meta.memories, keys[i].0)
              ==> keys[i].0 == KeyOf(r.texts[0]) && AlreadyThere(w, r.rows[0], r.texts[0])
    ensures AlreadyThere(w, r.rows[0], r.texts[0])
            ==> KeyOf(r.texts[0]) in w.objects && Referenced(w.meta.memories, KeyOf(r.texts[0]))
  {
    if AlreadyThere(w, r.rows[0], r.texts[0]) { assert PointerOk(w.objects, w.meta.memories[r.rows[0].id]); }
    forall i | 0 <= i < |keys| && Referenced(w.meta.memories, keys[i].0)
      ensures keys[i].0 == KeyOf(r.texts[0]) && AlreadyThere(w, r.rows[0], r.texts[0])
    {
      var id :| id in w.meta.memories && w.meta.memories[id].contentKey == keys[i].0;
      assert PointerOk(w.objects, w.meta.memories[id]);
      KeyDeterminesId(w, id, keys[i].0);
    }
  }

  lemma CleanupHitsTargetIff(w: World, r: Renaming, keys: seq<(Key, MemoryId)>, faults: RenameFaults)
    requires Sound(w) && RenamingOk(w, r) && |keys| > 0 && keys[0].0 == KeyOf(r.texts[0])
    requires forall i :: 0 <= i < |keys| ==> keys[i].0 == KeyOf(r.texts[0]) || keys[i].0 !in w.objects
    ensures ReferencedRemoved(keys, faults.removes, w.meta.memories)
            <==> RemovesItsTarget(w, r.rows[0], r.texts[0], faults)
  {
    WrittenKeysAreFree(w, r, keys);
  }

  /** Once a rename is committed no record points at an object it replaced. */
  lemma OldKeyIsFree(before: World, after: World, r: Renaming, i: nat)
    requires Sound(after) && RenamingOk(before, r) && i < |r.rows|
    requires (forall j :: 0 <= j < |r.texts| ==> KeyOf(r.texts[j]) !in before.objects)
    requires Replace(before.meta, r.rows[0].name, r.next, r.tombs) == Ok(after.meta)
    ensures !Referenced(after.meta.memories, r.rows[i].filePath)
  {
    NextIsFound(before, r, i);
    ReplacedMemory(before.meta, r.rows[0].name, r.next, r.tombs, r.rows[i].id);
    assert RowOk(r.rows[i]);
    OnlyOwnerPoints(after, r.rows[i].filePath, r.rows[i].id);
  }

  lemma OldKeysAreFree(before: World, after: World, r: Renaming)
    requires Sound(after) && RenamingOk(before, r)
    requires (forall j :: 0 <= j < |r.texts| ==> KeyOf(r.texts[j]) !in before.objects)
    requires Replace(before.meta, r.rows[0].name, r.next, r.tombs) == Ok(after.meta)
    ensures forall i :: 0 <= i < |r.rows| ==> !Referenced(after.meta.memories, r.rows[i].filePath)
  {
    hide Referenced, Replace, RenamingOk;
    forall i | 0 <= i < |r.rows| ensures !Referenced(after.meta.memories, r.rows[i].filePath) {
      OldKeyIsFree(before, after, r, i);
    }
  }

  /** The new records point at the texts once these are stored. */
  lemma NextPoints(objects: map<Key, Text>, before: World, r: Renaming)
    requires ObjectsOk(objects) && RenamingOk(before, r)
    requires forall i :: 0 <= i < |r.texts| ==> KeyOf(r.texts[i]) in objects
    ensures forall i :: 0 <= i < |r.next| ==> PointerOk(objects, r.next[i])
  {
    forall i | 0 <= i < |r.next| ensures PointerOk(objects, r.next[i]) {
      assert KeyOf(r.texts[i]) in objects;
    }
  }

  /** After a rename is undone every record points at an object that was there before it. */
  lemma UndoneKeysAreOld(w: World, r: Renaming, id: MemoryId)
    requires Sound(w) && RenamingOk(w, r) && Replace(w.meta, r.rows[0].name, r.next, r.tombs).Ok?
    requires var undone :=
             RestoreAll(Replace(w.meta, r.rows[0].name, r.next, r.tombs).value, r.previous, r.next, r.tombs);
             undone.Ok? && id in undone.value.memories
    ensures RestoreAll(Replace(w.meta, r.rows[0].name, r.next, r.tombs).value, r.previous, r.next,
                       r.tombs).value.memories[id].contentKey in w.objects
  {
    var s := Replace(w.meta, r.rows[0].name, r.next, r.tombs).value;
    var base := DropCurrent(s, r.previous, r.next);
    ReplacedMemory(w.meta, r.rows[0].name, r.next, r.tombs, id);
    DropCurrentMemory(s, r.previous, r.next, id);
    SetAllMemory(base, r.previous, id);
    UnburyKeepsDocuments(SetAll(base, r.previous), r.tombs);
    if Find(r.previous, id).Some? {
      var i :| 0 <= i < |r.previous| && r.previous[i] == Find(r.previous, id).value;
      assert PointerOk(w.objects, r.previous[i]);
    } else {
      forall i | 0 <= i < |r.next| ensures r.next[i].id != id { assert r.previous[i].id == r.rows[i].id; }
      assert PointerOk(w.objects, w.meta.memories[id]);
    }
  }

  /** The records are the replaced ones; some of the tombstones may be cleared already. */
  ghost predicate RenameCommitted(m: Meta, r: Renaming, s: Meta)
    requires |r.rows| > 0
  {
    var replaced := Replace(m, r.rows[0].name, r.next, r.tombs);
    replaced.Ok? && s == replaced.value.(tombstones := s.tombstones)
  }

  /** A finished rename: every memory read has its record replaced by the one of its rewritten text. */
  ghost predicate RenameDone(before: World, after: World, rows: seq<Row>, next: Name, rest: int,
                             rewrite: Memory -> Memory, now: int) {
    && |rows| > 0 && (forall i :: 0 <= i < |rows| ==> rows[i].filePath in before.objects)
    && RenameCommitted(before.meta, Prepared(rows, before.objects, next, rest, rewrite, now), after.meta)
  }

  // ----- applyMutation -----

  /** The answer of a transaction, or none if it threw. */
  function AnswerOf(result: Result<Outcome, Failure>): Option<Outcome> {
    if result.Ok? then Some(result.value) else None
  }

  datatype MutationEnding = Returned(outcome: Outcome) | Threw

  /** How a call that committed ends: applied if its answer came through and the cache could be brought up to date. */
  ghost function CommittedEnding(faults: MutationFaults): MutationEnding {
    if faults.commit.CommitWorks? && (faults.cacheUp || faults.reindexUp) then Returned(Applied)
    else if faults.checkUp && faults.rebuildUp then Returned(AlreadyApplied)
    else Threw
  }

  function PriorOutcome(m: Meta, c: Commit): Outcome
    requires c.operation in m.operations
  {
    if m.operations[c.operation] == c.payload then AlreadyApplied else Conflict
  }

  /** `expected_hashes[id]`. */
  function ExpectedHash(before: seq<(MemoryId, Hash)>, id: MemoryId): Option<Hash> {
    if before == [] then None
    else if before[|before| - 1].0 == id then Some(before[|before| - 1].1)
    else ExpectedHash(before[..|before| - 1], id)
  }

  ghost predicate PreparedDistinct(prepared: Option<seq<Memory>>) {
    prepared.Some? ==> forall i, j :: 0 <= i < j < |prepared.value| ==> prepared.value[i].id != prepared.value[j].id
  }

  /** `prepareMutation` never returns two memories with the same id. */
  ghost predicate PreparesDistinct(prepare: map<MemoryId, Memory> -> Option<seq<Memory>>) {
    forall current :: PreparedDistinct(prepare(current))
  }

  function OwnRecords(after: seq<Memory>): seq<Record> {
    seq(|after|, (i: nat) requires i < |after| => OwnRecord(after[i]))
  }

  lemma OwnRecordsPoint(objects: map<Key, Text>, after: seq<Memory>)
    requires ObjectsOk(objects) && forall j :: 0 <= j < |after| ==> KeyOf(after[j]) in objects
    ensures forall i :: 0 <= i < |OwnRecords(after)| ==> PointerOk(objects, OwnRecords(after)[i])
  {
    forall i | 0 <= i < |after| ensures PointerOk(objects, OwnRecords(after)[i]) { assert KeyOf(after[i]) in objects; }
  }

  /** The memories with the given ids, as the records point at them. */
  ghost function Stored(w: World, ids: seq<MemoryId>): map<MemoryId, Memory> {
    map id | id in ids && id in w.meta.memories
      && w.meta.memories[id].contentKey in w.objects :: w.objects[w.meta.memories[id].contentKey].memory
  }

  /** Each of the memories is recorded with exactly the hash the request expects. */
  ghost predicate HashesAsExpected(w: World, c: Commit, ids: seq<MemoryId>) {
    forall i :: 0 <= i < |ids|
      ==> ids[i] in w.meta.memories && ExpectedHash(c.before, ids[i]) == Some(w.meta.memories[ids[i]].contentHash)
  }

  /** What a mutation checks before its first write. */
  ghost predicate ReadyToWrite(w: World, c: Commit, ids: seq<MemoryId>, cached: set<MemoryId>, createName: Option<Name>,
                               prepare: map<MemoryId, Memory> -> Option<seq<Memory>>)
  {
    && c.operation !in w.meta.operations && (forall i :: 0 <= i < |ids| ==> ids[i] in cached)
    && HashesAsExpected(w, c, ids)
    && |c.before| == |ids| && !(createName.Some? && createName.value in w.meta.names) && SettingsAllow(w.meta, c)
    && prepare(Stored(w, ids)).Some?
  }

  /** The first i memories are in the cache and recorded with the hashes expected. */
  ghost predicate ReadsUpTo(w: World, c: Commit, ids: seq<MemoryId>, cached: set<MemoryId>, i: nat)
    requires i <= |ids|
  {
    HashesAsExpected(w, c, ids[..i]) && forall j :: 0 <= j < i ==> ids[j] in cached
  }

  /** A restore comes to a memory that is not there, and has read those before it. */
  ghost predicate RestoresNothing(w: World, c: Commit, ids: seq<MemoryId>, cached: set<MemoryId>) {
    c.action.Restore?
    && exists i: nat :: i < |ids| && ReadsUpTo(w, c, ids, cached, i)
                        && (ids[i] !in cached || ids[i] !in w.meta.memories)
  }

  /** A new operation throws before its first write: for a missing memory of a restore, or because preparing throws. */
  ghost predicate ThrowsBeforeWriting(w: World, c: Commit, ids: seq<MemoryId>, cached: set<MemoryId>,
                                      createName: Option<Name>, prepare: map<MemoryId, Memory> -> Option<seq<Memory>>)
  {
    || RestoresNothing(w, c, ids, cached)
    || (&& ReadsUpTo(w, c, ids, cached, |ids|) && |c.before| == |ids|
        && !(createName.Some? && createName.value in w.meta.names) && SettingsAllow(w.meta, c)
        && prepare(Stored(w, ids)).None?)
  }

  lemma ReadAt(w: World, c: Commit, ids: seq<MemoryId>, cached: set<MemoryId>, n: nat, i: nat)
    requires i < n <= |ids| && ReadsUpTo(w, c, ids, cached, n)
    ensures ids[i] in cached && ids[i] in w.meta.memories
    ensures ExpectedHash(c.before, ids[i]) == Some(w.meta.memories[ids[i]].contentHash)
  {
    assert ids[..n][i] == ids[i];
  }

  lemma StopsAtMissing(w: World, c: Commit, ids: seq<MemoryId>, cached: set<MemoryId>, i: nat)
    requires i < |ids| && ReadsUpTo(w, c, ids, cached, i) && (ids[i] !in cached || ids[i] !in w.meta.memories)
    ensures RestoresNothing(w, c, ids, cached) <==> c.action.Restore?
    ensures !ReadsUpTo(w, c, ids, cached, |ids|)
  {
    if ReadsUpTo(w, c, ids, cached, |ids|) { ReadAt(w, c, ids, cached, |ids|, i); }
  }

  /** A memory that is there but has another hash stops the reading with a conflict. */
  lemma StopsAtHash(w: World, c: Commit, ids: seq<MemoryId>, cached: set<MemoryId>, i: nat)
    requires i < |ids| && ReadsUpTo(w, c, ids, cached, i) && ids[i] in cached && ids[i] in w.meta.memories
    ensures ExpectedHash(c.before, ids[i]) != Some(w.meta.memories[ids[i]].contentHash)
            ==> !RestoresNothing(w, c, ids, cached) && !ReadsUpTo(w, c, ids, cached, |ids|)
  {
    if ExpectedHash(c.before, ids[i]) != Some(w.meta.memories[ids[i]].contentHash) {
      forall k: nat | k <= |ids| && ReadsUpTo(w, c, ids, cached, k)
        ensures k <= i
      {
        if k > i { ReadAt(w, c, ids, cached, k, i); }
      }
      forall k: nat | k < |ids| && ReadsUpTo(w, c, ids, cached, k)
        ensures ids[k] in cached && ids[k] in w.meta.memories
      {
        if k < i { ReadAt(w, c, ids, cached, i, k); }
      }
    }
  }

  lemma AllAreRead(w: World, c: Commit, ids: seq<MemoryId>, cached: set<MemoryId>)
    requires HashesAsExpected(w, c, ids) && forall j :: 0 <= j < |ids| ==> ids[j] in cached
    ensures ReadsUpTo(w, c, ids, cached, |ids|) && !RestoresNothing(w, c, ids, cached)
  {
    assert ids[..|ids|] == ids;
  }

  function TextBefore(texts: map<MemoryId, Text>, id: MemoryId): Option<Text> {
    if id in texts then Some(texts[id]) else None
  }

  /** The texts of the memories with the given ids, as the records point at them. */
  ghost function TextsRead(w: World, ids: seq<MemoryId>): map<MemoryId, Text> {
    map id | id in ids && id in w.meta.memories && w.meta.memories[id].contentKey in w.objects
      :: w.objects[w.meta.memories[id].contentKey]
  }

  /**
    The writes for one memory succeed: a text under another key than before is there already or is written, and the body
    of the old text is written under an unused key.
   */
  ghost predicate SnapshotWorks(objects: map<Key, Text>, memory: Memory, previous: Option<Text>, revision: RevisionId,
                                faults: MutationFaults)
  {
    && (previous.None? || KeyOf(memory) != KeyOf(previous.value.memory) ==>
          faults.headUp && (KeyOf(memory) in objects || WriteOf(faults.writes, KeyOf(memory)).WriteWorks?))
    && (previous.Some? ==>
          && RevisionObject(memory.id, revision) !in objects
          && WriteOf(faults.writes, RevisionObject(memory.id, revision)).WriteWorks?)
  }

  ghost predicate NthWorks(objects: map<Key, Text>, after: seq<Memory>, texts: map<MemoryId, Text>,
                           revisions: nat -> RevisionId, faults: MutationFaults, n: nat)
    requires n < |after|
  {
    SnapshotWorks(objects, after[n], TextBefore(texts, after[n].id), revisions(n), faults)
  }

  /** The writes for all of the memories succeed. */
  ghost predicate WritesWork(objects: map<Key, Text>, after: seq<Memory>, texts: map<MemoryId, Text>,
                             revisions: nat -> RevisionId, faults: MutationFaults)
  {
    forall n: nat :: n < |after| ==> NthWorks(objects, after, texts, revisions, faults, n)
  }

  /** The key is one that the writes for the first n memories use. */
  ghost predicate OwnKey(after: seq<Memory>, revisions: nat -> RevisionId, n: nat, key: Key)
    requires n <= |after|
  {
    exists j: nat :: j < n && (key == KeyOf(after[j]) || key == RevisionObject(after[j].id, revisions(j)))
  }

  /** What the writes for one memory add, whether they succeed or not. */
  ghost predicate SnapshotTried(before: map<Key, Text>, objects: map<Key, Text>, memory: Memory, revision: RevisionId,
                                current: seq<Key>, bodies: seq<Key>, faults: MutationFaults)
  {
    && (forall key :: key in before ==> key in objects && objects[key] == before[key])
    && (forall i :: 0 <= i < |current|
          ==> current[i] == KeyOf(memory) && current[i] !in before && current[i] in objects)
    && (forall i :: 0 <= i < |bodies| ==> bodies[i].RevisionObject?)
    && (forall key :: key in objects && key !in before
          ==> key == KeyOf(memory) || key == RevisionObject(memory.id, revision))
    && forall k :: k in objects && k !in before && k.MemoryObject?
         ==> k in current || WriteOf(faults.writes, k).WriteThrows?
  }

  /** The memory's text is stored under its key, and the text it replaces under that of the revision. */
  ghost predicate SnapshotStored(objects: map<Key, Text>, memory: Memory, previous: Option<Text>, revision: RevisionId)
  {
    && KeyOf(memory) in objects && objects[KeyOf(memory)] == Text(memory)
    && (previous.Some? ==> && RevisionObject(memory.id, revision) in objects
                           && objects[RevisionObject(memory.id, revision)] == previous.value)
  }

  ghost predicate SnapshotsStored(objects: map<Key, Text>, after: seq<Memory>, texts: map<MemoryId, Text>,
                                  revisions: nat -> RevisionId)
  {
    forall n: nat :: n < |after| ==> SnapshotStored(objects, after[n], TextBefore(texts, after[n].id), revisions(n))
  }

  lemma StoredMore(stored: map<Key, Text>, objects: map<Key, Text>, after: seq<Memory>, texts: map<MemoryId, Text>,
                   revisions: nat -> RevisionId, current: seq<Key>, bodies: seq<Key>, faults: MutationFaults, n: nat,
                   ok: bool)
    requires n < |after| && SnapshotsStored(stored, after[..n], texts, revisions)
    requires SnapshotTried(stored, objects, after[n], revisions(n), current, bodies, faults)
    requires ok ==> SnapshotStored(objects, after[n], TextBefore(texts, after[n].id), revisions(n))
    ensures ok ==> SnapshotsStored(objects, after[..n + 1], texts, revisions)
  {
    if ok {
      forall j: nat | j < n + 1
        ensures SnapshotStored(objects, after[j], TextBefore(texts, after[j].id), revisions(j))
      {
        if j < n {
          assert after[..n][j] == after[j];
          assert SnapshotStored(stored, after[..n][j], TextBefore(texts, after[j].id), revisions(j));
        }
      }
    }
  }

  /** Every text added is listed. */
  ghost predicate OnlyListedAdded(before: map<Key, Text>, objects: map<Key, Text>, current: seq<Key>) {
    forall k :: k in objects && k !in before && k.MemoryObject? ==> k in current
  }

  /** What the writes for the first n memories add, the last of them perhaps in vain. */
  ghost predicate WrittenFor(before: map<Key, Text>, objects: map<Key, Text>, after: seq<Memory>,
                             revisions: nat -> RevisionId, current: seq<Key>, bodies: seq<Key>, faults: MutationFaults,
                             n: nat)
    requires n <= |after|
  {
    && (forall key :: key in before ==> key in objects)
    && (forall i :: 0 <= i < |current|
          ==> current[i] !in before && current[i] in objects && KeyOfSome(after[..n], current[i]))
    && (forall i :: 0 <= i < |bodies| ==> bodies[i].RevisionObject?)
    && (forall key :: key in objects && key !in before ==> OwnKey(after, revisions, n, key))
    && forall k :: k in objects && k !in before && k.MemoryObject?
         ==> k in current || WriteOf(faults.writes, k).WriteThrows?
  }

  lemma NothingWritten(objects: map<Key, Text>, after: seq<Memory>, revisions: nat -> RevisionId,
                       faults: MutationFaults)
    ensures WrittenFor(objects, objects, after, revisions, [], [], faults, 0) && OnlyListedAdded(objects, objects, [])
  {
  }

  /** What was written for other memories is in nobody's way. */
  lemma WorksLater(before: map<Key, Text>, objects: map<Key, Text>, after: seq<Memory>, texts: map<MemoryId, Text>,
                   revisions: nat -> RevisionId, current: seq<Key>, bodies: seq<Key>, faults: MutationFaults, n: nat)
    requires n < |after| && PreparedDistinct(Some(after))
    requires WrittenFor(before, objects, after, revisions, current, bodies, faults, n)
    ensures SnapshotWorks(objects, after[n], TextBefore(texts, after[n].id), revisions(n), faults)
            <==> NthWorks(before, after, texts, revisions, faults, n)
  {
    var key, body := KeyOf(after[n]), RevisionObject(after[n].id, revisions(n));
    assert !OwnKey(after, revisions, n, key) && !OwnKey(after, revisions, n, body);
  }

  lemma WrittenMore(before: map<Key, Text>, stored: map<Key, Text>, objects: map<Key, Text>, after: seq<Memory>,
                    revisions: nat -> RevisionId, current: seq<Key>, keys: seq<Key>, bodies: seq<Key>, body: seq<Key>,
                    faults: MutationFaults, n: nat)
    requires n < |after| && WrittenFor(before, stored, after, revisions, current, bodies, faults, n)
    requires SnapshotTried(stored, objects, after[n], revisions(n), keys, body, faults)
    ensures WrittenFor(before, objects, after, revisions, current + keys, bodies + body, faults, n + 1)
    ensures OnlyListedAdded(before, stored, current) && OnlyListedAdded(stored, objects, keys)
            ==> OnlyListedAdded(before, objects, current + keys)
    ensures forall key :: key in stored ==> key in objects
  {
    KeyOfMore(after, n, current + keys);
    forall key | key in objects && key !in before ensures OwnKey(after, revisions, n + 1, key) {
      if key in stored { assert OwnKey(after, revisions, n, key); }
    }
    forall k | k in objects && k !in before && k.MemoryObject?
      ensures k in current + keys || WriteOf(faults.writes, k).WriteThrows?
    {
      assert k in stored || k !in stored;
    }
  }

  lemma AllAreListed(before: map<Key, Text>, objects: map<Key, Text>, after: seq<Memory>, current: seq<Key>)
    requires OnlyListedAdded(before, objects, current)
    requires forall j :: 0 <= j < |after| ==> KeyOf(after[j]) in objects
    ensures forall j :: 0 <= j < |after| ==> KeyOf(after[j]) in before || KeyOf(after[j]) in current
  {
  }

  lemma WhatIsWritten(before: map<Key, Text>, objects: map<Key, Text>, after: seq<Memory>,
                      revisions: nat -> RevisionId, current: seq<Key>, bodies: seq<Key>, faults: MutationFaults, n: nat)
    requires n <= |after| && WrittenFor(before, objects, after, revisions, current, bodies, faults, n)
    ensures forall key :: key in before ==> key in objects
    ensures forall i :: 0 <= i < |current|
              ==> current[i] !in before && current[i] in objects && KeyOfSome(after, current[i])
    ensures forall i :: 0 <= i < |bodies| ==> bodies[i].RevisionObject?
    ensures forall k :: k in objects && k !in before && k.MemoryObject?
              ==> k in current || WriteOf(faults.writes, k).WriteThrows?
  {
    forall i | 0 <= i < |current| ensures KeyOfSome(after, current[i]) {
      assert KeyOfSome(after[..n], current[i]);
      var j :| 0 <= j < n && current[i] == KeyOf(after[..n][j]);
      assert after[..n][j] == after[j];
    }
  }

  /**
    A committed mutation: computed from the stored memories, whose hashes were the expected ones, and recorded with its
    operation.
   */
  ghost predicate MutationStored(before: World, c: Commit, ids: seq<MemoryId>,
                                 prepare: map<MemoryId, Memory> -> Option<seq<Memory>>, after: Meta)
  {
    var prepared := prepare(Stored(before, ids));
    HashesAsExpected(before, c, ids) && prepared.Some?
      && after == Committed(before.meta, c, OwnRecords(prepared.value)).1
  }

  /** The commit takes effect: nothing stops the mutation before it, no write fails, and the transaction accepts it. */
  ghost predicate Takes(w: World, c: Commit, ids: seq<MemoryId>, cached: set<MemoryId>, createName: Option<Name>,
                        prepare: map<MemoryId, Memory> -> Option<seq<Memory>>, revisions: nat -> RevisionId,
                        faults: MutationFaults)
  {
    && ReadyToWrite(w, c, ids, cached, createName, prepare)
    && var after := prepare(Stored(w, ids)).value;
       && WritesWork(w.objects, after, TextsRead(w, ids), revisions, faults)
       && (faults.commit.CommitWorks? || faults.commit.applied)
       && Committed(w.meta, c, OwnRecords(after)).0 == Ok(Applied)
  }

  /** The writes succeed and the transaction answers conflict. */
  ghost predicate RefusedByCommit(w: World, c: Commit, ids: seq<MemoryId>,
                                  prepare: map<MemoryId, Memory> -> Option<seq<Memory>>, revisions: nat -> RevisionId,
                                  faults: MutationFaults)
  {
    var prepared := prepare(Stored(w, ids));
    && prepared.Some? && WritesWork(w.objects, prepared.value, TextsRead(w, ids), revisions, faults)
    && faults.commit.CommitWorks? && Committed(w.meta, c, OwnRecords(prepared.value)).0 == Ok(Conflict)
  }

  lemma NewIsNotKnown(m: Meta, c: Commit, records: seq<Record>)
    requires c.operation !in m.operations
    ensures Committed(m, c, records).0 != Ok(AlreadyApplied)
  {
  }

  /** The clean-up removes a text of the prepared memories that was not there before. */
  ghost predicate RemovesNewText(w: World, ids: seq<MemoryId>, prepare: map<MemoryId, Memory> -> Option<seq<Memory>>,
                                 removes: map<Key, RemoveFault>)
  {
    var prepared := prepare(Stored(w, ids));
    prepared.Some? && exists j :: 0 <= j < |prepared.value| && NewAndRemoved(w.objects, prepared.value[j], removes)
  }

  ghost predicate NewAndRemoved(objects: map<Key, Text>, memory: Memory, removes: map<Key, RemoveFault>) {
    KeyOf(memory) !in objects && Removes(RemoveOf(removes, KeyOf(memory)))
  }

  lemma NewTextsRemovedIff(w: World, ids: seq<MemoryId>, prepare: map<MemoryId, Memory> -> Option<seq<Memory>>,
                           after: seq<Memory>, written: seq<Key>, removes: map<Key, RemoveFault>)
    requires prepare(Stored(w, ids)) == Some(after)
    requires forall i :: 0 <= i < |written| ==> written[i] !in w.objects && KeyOfSome(after, written[i])
    requires forall j :: 0 <= j < |after| ==> KeyOf(after[j]) in w.objects || KeyOf(after[j]) in written
    ensures SomeRemoved(written, removes) <==> RemovesNewText(w, ids, prepare, removes)
    ensures AllWritten(w, ids, prepare, written)
  {
    hide Stored;
    if SomeRemoved(written, removes) {
      var i :| 0 <= i < |written| && Removes(RemoveOf(removes, written[i]));
      assert KeyOfSome(after, written[i]);
      var j :| 0 <= j < |after| && written[i] == KeyOf(after[j]);
      assert NewAndRemoved(w.objects, after[j], removes);
    }
    if j :| 0 <= j < |after| && NewAndRemoved(w.objects, after[j], removes) {
      var i :| 0 <= i < |written| && written[i] == KeyOf(after[j]);
    }
  }

  /**
    The prepared memories have different names, and those that are recorded are among the ones the mutation names; the
    mutations of the service are of this form.
   */
  ghost predicate PreparesInPlace(w: World, ids: seq<MemoryId>, prepare: map<MemoryId, Memory> -> Option<seq<Memory>>) {
    var prepared := prepare(Stored(w, ids));
    prepared.Some? ==>
      && DistinctNames(OwnRecords(prepared.value))
      && forall i :: 0 <= i < |prepared.value| && prepared.value[i].id in w.meta.memories
           ==> prepared.value[i].id in ids
  }

  lemma {:induction false} ExpectedIsNamed(before: seq<(MemoryId, Hash)>, id: MemoryId)
    requires ExpectedHash(before, id).Some?
    ensures IsNamed(before, id)
  {
    if before[|before| - 1].0 != id {
      ExpectedIsNamed(before[..|before| - 1], id);
      var i :| 0 <= i < |before| - 1 && before[..|before| - 1][i].0 == id;
      assert before[i].0 == id;
    }
  }

  lemma MutationKeepsIndex(w: World, c: Commit, ids: seq<MemoryId>,
                           prepare: map<MemoryId, Memory> -> Option<seq<Memory>>)
    requires NameIndexOk(w.meta) && HashesAsExpected(w, c, ids) && PreparesInPlace(w, ids, prepare)
    requires prepare(Stored(w, ids)).Some? && PreparedDistinct(prepare(Stored(w, ids)))
    ensures NameIndexOk(Committed(w.meta, c, OwnRecords(prepare(Stored(w, ids)).value)).1)
  {
    hide Stored;
    var after := prepare(Stored(w, ids)).value;
    forall i | 0 <= i < |after| && after[i].id in w.meta.memories ensures IsNamed(c.before, after[i].id) {
      var j :| 0 <= j < |ids| && ids[j] == after[i].id;
      ExpectedIsNamed(c.before, ids[j]);
    }
    CommitKeepsIndex(w.meta, c, OwnRecords(after));
  }

  /** Every text of the prepared memories was there before or is among the written ones. */
  ghost predicate AllWritten(w: World, ids: seq<MemoryId>, prepare: map<MemoryId, Memory> -> Option<seq<Memory>>,
                             written: seq<Key>) {
    var prepared := prepare(Stored(w, ids));
    prepared.Some? && forall j :: 0 <= j < |prepared.value|
                        ==> KeyOf(prepared.value[j]) in w.objects || KeyOf(prepared.value[j]) in written
  }

  /** The key is the key of one of the memories. */
  ghost predicate KeyOfSome(after: seq<Memory>, key: Key) {
    exists j :: 0 <= j < |after| && key == KeyOf(after[j])
  }

  lemma KeyOfMore(after: seq<Memory>, n: nat, keys: seq<Key>)
    requires n < |after| && forall i :: 0 <= i < |keys| ==> KeyOfSome(after[..n], keys[i]) || keys[i] == KeyOf(after[n])
    ensures forall i :: 0 <= i < |keys| ==> KeyOfSome(after[..n + 1], keys[i]) && KeyOfSome(after, keys[i])
  {
    forall i | 0 <= i < |keys| ensures KeyOfSome(after[..n + 1], keys[i]) && KeyOfSome(after, keys[i]) {
      var j := n;
      if KeyOfSome(after[..n], keys[i]) { j :| 0 <= j < n && keys[i] == KeyOf(after[..n][j]); }
      assert after[..n + 1][j] == after[j];
    }
  }

  /** The operation was recorded between the two states. */
  ghost predicate CommittedNow(m: Meta, s: Meta, c: Commit) {
    c.operation !in m.operations && c.operation in s.operations
  }

  /** The faults under which the catch block runs after a commit and cannot find out that it took effect. */
  ghost predicate LosesSight(faults: MutationFaults) {
    (faults.commit.CommitThrows? || (!faults.cacheUp && !faults.reindexUp)) && !faults.checkUp
  }

  ghost predicate SomeRemoved(keys: seq<Key>, removes: map<Key, RemoveFault>) {
    exists i :: 0 <= i < |keys| && Removes(RemoveOf(removes, keys[i]))
  }

  lemma FreshKeysAreFree(w: World, keys: seq<Key>)
    requires Sound(w)
    ensures forall i :: 0 <= i < |keys| && (keys[i] !in w.objects || keys[i].RevisionObject?)
              ==> !Referenced(w.meta.memories, keys[i])
  {
    forall i | 0 <= i < |keys| && (keys[i] !in w.objects || keys[i].RevisionObject?)
      ensures !Referenced(w.meta.memories, keys[i])
    {
      if keys[i].RevisionObject? {
        forall id | id in w.meta.memories
          ensures w.meta.memories[id].contentKey != keys[i]
        {
          assert PointerOk(w.objects, w.meta.memories[id]);
        }
      } else {
        AbsentIsUnreferenced(w, keys[i]);
      }
    }
  }

  /** If no removal of a written text takes effect, the clean-up only takes revision bodies. */
  lemma RevisionsAreFree(w: World, current: seq<Key>, bodies: seq<Key>, removes: map<Key, RemoveFault>)
    requires Sound(w) && forall i :: 0 <= i < |bodies| ==> bodies[i].RevisionObject?
    ensures !SomeRemoved(current, removes)
            ==> forall i :: 0 <= i < |current + bodies| && Removes(RemoveOf(removes, (current + bodies)[i]))
                  ==> !Referenced(w.meta.memories, (current + bodies)[i])
  {
    FreshKeysAreFree(w, bodies);
    if !SomeRemoved(current, removes) {
      forall i | 0 <= i < |current + bodies| && Removes(RemoveOf(removes, (current + bodies)[i]))
        ensures !Referenced(w.meta.memories, (current + bodies)[i])
      {
        assert i >= |current|;
        assert (current + bodies)[i] == bodies[i - |current|];
      }
    }
  }

  lemma RemovedPointerIsUnsound(w: World, current: seq<Key>, removes: map<Key, RemoveFault>)
    requires SomeRemoved(current, removes)
    requires forall i :: 0 <= i < |current| && Removes(RemoveOf(removes, current[i])) ==> current[i] !in w.objects
    requires forall i :: 0 <= i < |current| ==> Referenced(w.meta.memories, current[i])
    ensures !Sound(w)
  {
    var i :| 0 <= i < |current| && Removes(RemoveOf(removes, current[i]));
    var id :| id in w.meta.memories && w.meta.memories[id].contentKey == current[i];
    assert !PointerOk(w.objects, w.meta.memories[id]);
  }

  /** A commit that takes effect leaves every text it wrote pointed at, and records the operation. */
  lemma CommitReferences(m: Meta, c: Commit, after: seq<Memory>, records: seq<Record>, s: Meta, current: seq<Key>)
    requires c.operation !in m.operations && (s == m || s == Committed(m, c, records).1)
    requires PreparedDistinct(Some(after)) && records == OwnRecords(after)
    requires forall i :: 0 <= i < |current| ==> KeyOfSome(after, current[i])
    ensures CommittedNow(m, s, c)
            ==> s.operations[c.operation] == c.payload
                && forall i :: 0 <= i < |current| ==> Referenced(s.memories, current[i])
    ensures !CommittedNow(m, s, c) ==> s == m
    ensures s == Committed(m, c, records).1 ==> (Committed(m, c, records).0 == Ok(Applied) <==> CommittedNow(m, s, c))
  {
    var base := m.(names := DropRenamed(m, c.before, records));
    SetAllMemory(base, records, 0);
    if CommittedNow(m, s, c) {
      forall i | 0 <= i < |current| ensures Referenced(s.memories, current[i]) {
        assert KeyOfSome(after, current[i]);
        var j :| 0 <= j < |after| && current[i] == KeyOf(after[j]);
        FindIs(records, records[j]);
        SetAllMemory(base, records, after[j].id);
        assert s.memories[after[j].id].contentKey == current[i];
      }
    }
  }

  /** A rename whose undo failed leaves the record at the object that the same rename, tried again, writes first. */
  lemma LostUndoIsAlreadyThere(before: World, after: World, rows: seq<Row>, next: Name, rest: int,
                               rewrite: Memory -> Memory, now: int)
    requires Sound(before) && RowsOk(rows) && Rewrites(rewrite)
    requires RenameDone(before, after, rows, next, rest, rewrite, now)
    requires forall key :: key in before.objects ==> key in after.objects && after.objects[key] == before.objects[key]
    ensures rows[0].filePath in after.objects
    ensures AlreadyThere(after, rows[0], RenamedMemory(after.objects[rows[0].filePath].memory, next, rest, rewrite))
  {
    var r := Prepared(rows, before.objects, next, rest, rewrite, now);
    PreparedIsOk(before, rows, next, rest, rewrite, now);
    NextIsFound(before, r, 0);
    ReplacedMemory(before.meta, r.rows[0].name, r.next, r.tombs, r.rows[0].id);
  }

  /**
    A rename of the memory 1 from the name 10 to the name 20 whose cache write and undo both failed, and the stale
    cache row.
   */
  function LostUndo(): (World, World, Row) {
    var memory, renamed := Memory(1, 10, [], true, 0), Memory(1, 20, [], true, 1);
    var row := Row(1, 10, KeyOf(memory), Sha256(Text(memory)));
    var m := SetRecord(Meta(true, None, map[], map[], map[], None, map[], map[]), OwnRecord(memory));
    var s := Replace(m, 10, [OwnRecord(renamed)], [Tombstone(1, KeyOf(memory), 0)]);
    var objects := map[KeyOf(memory) := Text(memory)];
    (World(objects, m), World(objects[KeyOf(renamed) := Text(renamed)], if s.Ok? then s.value else m), row)
  }

  /**
    The excepted case of `Rename` happens: tried again at the same time with the stale row, it removes the object its
    record points at.
   */
  lemma RetriedRenameBreaksPointer(faults: RenameFaults)
    requires faults.removes == map[]
    ensures var (before, after, row) := LostUndo(); var rewrite := (m: Memory) => m;
            && Sound(before) && Sound(after) && RowsOk([row]) && Rewrites(rewrite)
            && RenameDone(before, after, [row], 20, 1, rewrite, 0)
            && RenameRemovesItsTarget(after, [row], 20, 1, rewrite, faults)
            && var target := after.meta.memories[1].contentKey; !Sound(after.(objects := after.objects - {target}))
  {
    var (before, after, row) := LostUndo();
    var rewrite := (m: Memory) => m;
    var r := Prepared([row], before.objects, 20, 1, rewrite, 0);
    var renamed := Memory(1, 20, [], true, 1);
    var memory := Memory(1, 10, [], true, 0);
    assert before.objects[row.filePath].memory == memory;
    assert rewrite(memory) == memory;
    assert RenamedMemory(memory, 20, 1, rewrite) == renamed;
    assert r.texts[0] == RenamedMemory(memory, 20, 1, rewrite);
    assert r.texts == [renamed] && r.next == [OwnRecord(renamed)] && r.tombs == [Tombstone(1, row.filePath, 0)];
    PreparedIsOk(before, [row], 20, 1, rewrite, 0);
    assert !SomeNameTaken(before.meta.names, r.next);
    assert Replace(before.meta, 10, r.next, r.tombs).Ok?;
    WriteKeepsSound(before, KeyOf(renamed), Text(renamed));
    ReplaceKeepsSound(before.(objects := after.objects), 10, r.next, r.tombs);
    LostUndoIsAlreadyThere(before, after, [row], 20, 1, rewrite, 0);
    assert Referenced(after.meta.memories, KeyOf(renamed));
    RemoveKeepsSoundIff(after, KeyOf(renamed));
  }

  /** After a lost undo the documents hold the memory under its new name alone, and both texts are stored. */
  lemma LostUndoIndex()
    ensures var (_, after, row) := LostUndo(); var renamed := Memory(1, 20, [], true, 1);
            && after.meta.memories == map[1 := OwnRecord(renamed)]
            && after.meta.names == map[20 := EntryOf(OwnRecord(renamed))]
            && after.meta.shared && NameIndexOk(after.meta) && RowOk(row)
  {
    var (before, after, row) := LostUndo();
    var rs, tombs := [OwnRecord(Memory(1, 20, [], true, 1))], [Tombstone(1, row.filePath, 0)];
    assert rs[..0] == [] && tombs[..0] == [];
    assert !SomeNameTaken(before.meta.names, rs) && !HasName(rs, 10);
    var dropped := before.meta.(names := before.meta.names - {10});
    assert SetAll(dropped, rs) == SetRecord(SetAll(dropped, rs[..0]), rs[0]);
    BuryKeepsDocuments(SetAll(dropped, rs), tombs);
    assert after.meta == Replace(before.meta, 10, rs, tombs).value;
    assert after.meta.names == map[20 := EntryOf(rs[0])];
  }

  /**
    The excepted case of the index clause of `Update` happens: through the stale row it leaves two names for one
    memory.
   */
  lemma StaleUpdateBreaksIndex(faults: SaveFaults)
    requires faults.write.WriteWorks? && faults.putUp
    ensures var (_, after, row) := LostUndo(); var patch := Patch(None, 2);
            && NameIndexOk(after.meta) && RowOk(row) && Puts(after, row, patch, faults)
               && RecordedOtherwise(after.meta, row)
            && !NameIndexOk(Put(after.meta, OwnRecord(Patched(after.objects[row.filePath].memory, patch)), None).value)
  {
    var (_, after, row) := LostUndo();
    LostUndoIndex();
    var memory, updated := Memory(1, 10, [], true, 0), Memory(1, 10, [], true, 2);
    assert after.objects[row.filePath].memory == memory && Patched(memory, Patch(None, 2)) == updated;
    PutKeepsIndexIff(after.meta, OwnRecord(updated), None);
  }

  /**
    The excepted case of the index clause of `Rename` happens: a rename through the stale row leaves the name between.
   */
  lemma StaleRenameBreaksIndex(faults: RenameFaults)
    requires faults.writes == map[] && faults.replaceUp
    ensures var (_, after, row) := LostUndo(); var rewrite := (m: Memory) => m;
            && NameIndexOk(after.meta) && RowsOk([row]) && Rewrites(rewrite) && CacheNamesApart([row], 30)
            && RenameReplaces(after, [row], 30, 3, rewrite, 0, faults) && !RowsFit(after.meta, [row], 30)
            && var r := Prepared([row], after.objects, 30, 3, rewrite, 0);
               !NameIndexOk(Replace(after.meta, 10, r.next, r.tombs).value)
  {
    var (_, after, row) := LostUndo();
    var rewrite := (m: Memory) => m;
    LostUndoIndex();
    SecondRename(rewrite);
    SecondRenameReplaces(rewrite, faults);
    hide LostUndo, NameIndexOk, Prepared, RenameReplaces, Replace, SetAll, BuryAll;
    var r := Prepared([row], after.objects, 30, 3, rewrite, 0);
    assert [row][0] == row && r.next[0].id == 1 && r.next[0].name == 30;
    ReplaceKeepsIndexIff(after.meta, 10, r.next, r.tombs);
  }

  lemma SecondRenameReplaces(rewrite: Memory -> Memory, faults: RenameFaults)
    requires faults.writes == map[] && faults.replaceUp && forall m :: rewrite(m) == m
    ensures var (_, after, row) := LostUndo();
            && row.filePath in after.objects && RenameReplaces(after, [row], 30, 3, rewrite, 0, faults)
            && var r := Prepared([row], after.objects, 30, 3, rewrite, 0);
               Replace(after.meta, 10, r.next, r.tombs).Ok?
  {
    var (_, after, row) := LostUndo();
    LostUndoIndex();
    SecondRename(rewrite);
    hide LostUndo, NameIndexOk, Prepared, SetAll, BuryAll;
    var r := Prepared([row], after.objects, 30, 3, rewrite, 0);
    assert [row][0] == row && r.next[0].id == 1 && r.next[0].name == 30;
    assert !SomeNameTaken(after.meta.names, r.next);
    assert Storable(after.objects, r.texts, faults, 0);
  }

  /** What the rename from the stale row to the name 30 has computed. */
  lemma SecondRename(rewrite: Memory -> Memory)
    requires forall m :: rewrite(m) == m
    ensures var (_, after, row) := LostUndo(); var renamed := Memory(1, 30, [], true, 3);
            && row.filePath in after.objects && row.id == 1 && row.name == 10
            && KeyOf(renamed) !in after.objects
            && var r := Prepared([row], after.objects, 30, 3, rewrite, 0);
               r.rows == [row] && r.texts == [renamed] && r.next == [OwnRecord(renamed)]
  {
    var (_, after, row) := LostUndo();
    var memory, renamed := Memory(1, 10, [], true, 0), Memory(1, 30, [], true, 3);
    var r := Prepared([row], after.objects, 30, 3, rewrite, 0);
    assert after.objects[row.filePath].memory == memory;
    assert r.texts[0] == RenamedMemory(memory, 30, 3, rewrite) == renamed;
    assert r.texts == [renamed] && r.next == [OwnRecord(renamed)];
  }

  /**
    A rename whose undo was lost leaves its cache row with another name than the record: the next call finds it stale.
   */
  lemma LostUndoIsRecordedOtherwise(before: World, after: World, rows: seq<Row>, next: Name, rest: int,
                                    rewrite: Memory -> Memory, now: int)
    requires Sound(before) && RowsOk(rows) && Rewrites(rewrite) && rows != [] && rows[0].name != next
    requires RenameDone(before, after, rows, next, rest, rewrite, now)
    ensures RecordedOtherwise(after.meta, rows[0])
  {
    var r := Prepared(rows, before.objects, next, rest, rewrite, now);
    PreparedIsOk(before, rows, next, rest, rewrite, now);
    NextIsFound(before, r, 0);
    ReplacedMemory(before.meta, r.rows[0].name, r.next, r.tombs, r.rows[0].id);
  }

  /** Two calls in a row: the rename whose undo failed, and the same rename tried again at the same time. */
  method RenameTwice(service: CloudMemoryService, rows: seq<Row>, nextTaken: bool, next: Name, rest: int,
                     rewrite: Memory -> Memory, now: int,
                     first: RenameFaults, second: RenameFaults) returns (one: Ending, two: Ending)
    requires Sound(service.Now()) && AllSound(service.trace) && |rows| > 0 && RowsOk(rows) && Rewrites(rewrite)
    requires second.removes == map[]
    modifies service
    ensures one == CompensationFailed ==> two == Failed && !AllSound(service.trace)
  {
    one := service.Rename(rows, nextTaken, next, rest, rewrite, now, first);
    two := Refused;
    if one == CompensationFailed {
      LostUndoIsAlreadyThere(old(service.Now()), service.Now(), rows, next, rest, rewrite, now);
      two := service.Rename(rows, nextTaken, next, rest, rewrite, now, second);
    }
  }

  /** A mutation of the shared project that creates one memory, with no precondition on settings or earlier hashes. */
  function CreateOne(): (Meta, Commit, Memory) {
    (Meta(true, None, map[], map[], map[], None, map[], map[]), Commit(7, 42, None, None, Create, 0, []),
     Memory(1, 10, [], true, 0))
  }

  /**
    The excepted case of `ApplyMutation` happens: the commit takes effect, and the clean-up takes the object it points
    at.
   */
  method LostCommitBreaksPointer() returns (service: CloudMemoryService, ending: MutationEnding)
    ensures fresh(service) && !AllSound(service.trace)
  {
    var (m, c, memory) := CreateOne();
    service := new CloudMemoryService(true);
    var faults := MutationFaults(true, map[], CommitThrows(true), true, true, false, true, map[]);
    var prepare := (current: map<MemoryId, Memory>) => Some([memory]);
    ghost var before, written := service.Now(), [];
    CreateOneTakes(prepare, _ => 1, faults);
    assert prepare(Stored(before, [])) == Some([memory]) && [memory][0] == memory;
    assert NewAndRemoved(before.objects, [memory][0], faults.removes);
    hide Takes, Committed, ObjectsOk, RecordsOk, Referenced, CommittedNow, MutationStored;
    ending, written := service.ApplyMutation(c, [], {}, Some(10), prepare, _ => 1, faults);
  }

  lemma CreateOneTakes(prepare: map<MemoryId, Memory> -> Option<seq<Memory>>, revisions: nat -> RevisionId,
                       faults: MutationFaults)
    requires faults.headUp && faults.writes == map[] && faults.commit == CommitThrows(true)
    requires forall current :: prepare(current) == Some([CreateOne().2])
    ensures Sound(World(map[], CreateOne().0))
    ensures Takes(World(map[], CreateOne().0), CreateOne().1, [], {}, Some(10), prepare, revisions, faults)
  {
    var (m, c, memory) := CreateOne();
    assert OwnRecords([memory]) == [OwnRecord(memory)];
    assert Allowed(m, c, [OwnRecord(memory)]);
  }
}
