/**
  Worlds of the cloud storage: content-addressed objects and the metadata that points at them. A world is sound when
  every record's key is the key of its name and hash and names a stored object with that hash. Each single step of the
  cloud operations keeps worlds sound under a condition stated here.
 */
module CloudPointers {
  import opened Base
  import opened MetadataStore
  import opened MetadataInvariants

  datatype World = World(objects: map<Key, Text>, meta: Meta)

  function KeyOf(m: Memory): Key { MemoryObject(m.name, Sha256(Text(m))) }

  /** `toMemoryIndexRecord`. */
  function IndexRecord(m: Memory, key: Key, hash: Hash): Record {
    Record(m.id, m.name, key, hash, m.links, m.active, m.rest)
  }

  /** Every memory object holds the text its key was computed from. */
  ghost predicate ObjectsOk(objects: map<Key, Text>) {
    forall key :: key in objects && key.MemoryObject?
      ==> Sha256(objects[key]) == key.hash && objects[key].memory.name == key.name
  }

  /** The record's key is the key of its name and hash, and the stored object has that hash and this memory's id. */
  ghost predicate PointerOk(objects: map<Key, Text>, r: Record) {
    && r.contentKey == MemoryObject(r.name, r.contentHash)
    && r.contentKey in objects && Sha256(objects[r.contentKey]) == r.contentHash
    && objects[r.contentKey].memory.id == r.id
  }

  ghost predicate RecordsOk(objects: map<Key, Text>, memories: map<MemoryId, Record>) {
    forall id :: id in memories ==> memories[id].id == id && PointerOk(objects, memories[id])
  }

  ghost predicate Sound(w: World) {
    ObjectsOk(w.objects) && RecordsOk(w.objects, w.meta.memories)
  }

  /** Some record points at the key. */
  ghost predicate Referenced(memories: map<MemoryId, Record>, key: Key) {
    exists id :: id in memories && memories[id].contentKey == key
  }

  /** A cache row, as every cache transaction writes them: key, hash, name and id belong to one text. */
  datatype Row = Row(id: MemoryId, name: Name, filePath: Key, contentHash: Hash)

  predicate RowOk(row: Row) {
    row.filePath == MemoryObject(row.name, row.contentHash) && row.contentHash.text.memory.id == row.id
      && row.contentHash.text.memory.name == row.name
  }

  lemma WriteKeepsSound(w: World, key: Key, text: Text)
    requires Sound(w) && key !in w.objects && (key.MemoryObject? ==> key == KeyOf(text.memory))
    ensures Sound(w.(objects := w.objects[key := text]))
  {
  }

  /** Removing an object keeps the world sound exactly when no record points at it. */
  lemma RemoveKeepsSoundIff(w: World, key: Key)
    requires Sound(w)
    ensures Sound(w.(objects := w.objects - {key})) <==> !Referenced(w.meta.memories, key)
  {
    var s := w.(objects := w.objects - {key});
    if !Referenced(w.meta.memories, key) {
      forall id | id in w.meta.memories
        ensures PointerOk(s.objects, w.meta.memories[id])
      {
        assert PointerOk(w.objects, w.meta.memories[id]);
      }
    }
    if Sound(s) {
      forall id | id in w.meta.memories
        ensures w.meta.memories[id].contentKey != key
      {
        assert PointerOk(s.objects, w.meta.memories[id]);
      }
    }
  }

  /** The same in a world that may be unsound already: a removal never makes a dangling record good again. */
  lemma RemovalIsSoundIff(w: World, key: Key)
    requires ObjectsOk(w.objects)
    ensures Sound(w.(objects := w.objects - {key})) <==> Sound(w) && !Referenced(w.meta.memories, key)
  {
    var s := w.(objects := w.objects - {key});
    if Sound(s) {
      forall id | id in w.meta.memories
        ensures w.meta.memories[id].id == id && PointerOk(w.objects, w.meta.memories[id])
      {
        assert PointerOk(s.objects, s.meta.memories[id]);
      }
    }
    if Sound(w) { RemoveKeepsSoundIff(w, key); }
  }

  lemma PutKeepsSound(w: World, r: Record, revision: Option<nat>)
    requires Sound(w) && PointerOk(w.objects, r) && Put(w.meta, r, revision).Ok?
    ensures Sound(w.(meta := Put(w.meta, r, revision).value))
  {
  }

  lemma RemoveRecordKeepsSound(w: World, id: MemoryId, expected: Pointer)
    requires Sound(w)
    ensures Sound(w.(meta := Remove(w.meta, id, expected)))
  {
  }

  lemma RestoreKeepsSound(w: World, r: Record, expected: Pointer)
    requires Sound(w) && PointerOk(w.objects, r) && RestoreOne(w.meta, r, expected).Ok?
    ensures Sound(w.(meta := RestoreOne(w.meta, r, expected).value))
  {
  }

  lemma DeleteKeepsSound(w: World, id: MemoryId, tomb: Tombstone)
    requires Sound(w)
    ensures Sound(w.(meta := Delete(w.meta, id, tomb)))
  {
  }

  /** Records written from a list whose pointers are good, over a part of sound records. */
  lemma SetAllKeepsRecords(w: World, base: Meta, rs: seq<Record>)
    requires Sound(w) && (forall i :: 0 <= i < |rs| ==> PointerOk(w.objects, rs[i]))
    requires forall id :: id in base.memories ==> id in w.meta.memories && base.memories[id] == w.meta.memories[id]
    ensures RecordsOk(w.objects, SetAll(base, rs).memories)
  {
    var s := SetAll(base, rs);
    forall id | id in s.memories ensures s.memories[id].id == id && PointerOk(w.objects, s.memories[id]) {
      SetAllMemory(base, rs, id);
      if Find(rs, id).Some? { var i :| 0 <= i < |rs| && rs[i] == Find(rs, id).value; }
    }
  }

  lemma ReplaceKeepsSound(w: World, oldName: Name, rs: seq<Record>, tombs: seq<Tombstone>)
    requires Sound(w) && (forall i :: 0 <= i < |rs| ==> PointerOk(w.objects, rs[i]))
    requires Replace(w.meta, oldName, rs, tombs).Ok?
    ensures Sound(w.(meta := Replace(w.meta, oldName, rs, tombs).value))
  {
    var dropped := if HasName(rs, oldName) then w.meta else w.meta.(names := w.meta.names - {oldName});
    SetAllKeepsRecords(w, dropped, rs);
    BuryKeepsDocuments(SetAll(dropped, rs), tombs);
  }

  lemma RestoreAllKeepsSound(w: World, previous: seq<Record>, current: seq<Record>, tombs: seq<Tombstone>)
    requires Sound(w) && (forall i :: 0 <= i < |previous| ==> PointerOk(w.objects, previous[i]))
    requires RestoreAll(w.meta, previous, current, tombs).Ok?
    ensures Sound(w.(meta := RestoreAll(w.meta, previous, current, tombs).value))
  {
    var base := DropCurrent(w.meta, previous, current);
    forall id | id in base.memories
      ensures id in w.meta.memories && base.memories[id] == w.meta.memories[id]
    {
      DropCurrentMemory(w.meta, previous, current, id);
    }
    SetAllKeepsRecords(w, base, previous);
    UnburyKeepsDocuments(SetAll(base, previous), tombs);
  }

  lemma CommitKeepsSound(w: World, c: Commit, rs: seq<Record>)
    requires Sound(w) && (forall i :: 0 <= i < |rs| ==> PointerOk(w.objects, rs[i]))
    ensures Sound(w.(meta := Committed(w.meta, c, rs).1))
  {
    SetAllKeepsRecords(w, w.meta.(names := DropRenamed(w.meta, c.before, rs)), rs);
  }

  /** Two records that share a key are the same memory's. */
  lemma KeyDeterminesId(w: World, id: MemoryId, key: Key)
    requires Sound(w) && key.MemoryObject? && id in w.meta.memories && w.meta.memories[id].contentKey == key
    ensures key.hash.text.memory.id == id && key.hash.text.memory.name == w.meta.memories[id].name
  {
    assert PointerOk(w.objects, w.meta.memories[id]);
  }

  /** A key that is not stored is not pointed at. */
  lemma AbsentIsUnreferenced(w: World, key: Key)
    requires Sound(w) && key !in w.objects
    ensures !Referenced(w.meta.memories, key)
  {
    forall id | id in w.meta.memories
      ensures w.meta.memories[id].contentKey != key
    {
      assert PointerOk(w.objects, w.meta.memories[id]);
    }
  }
}
