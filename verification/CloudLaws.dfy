/**
  When a cloud mutation takes effect and what the operations of the cloud service leave in the documents, told from the
  world before the call, the request and the failures alone.
 */
module CloudLaws {
  import opened Base
  import opened MetadataStore
  import opened MetadataInvariants
  import opened MetadataLaws
  import opened CloudPointers
  import opened CloudMemory

  // ----- applyMutation -----

  /**
    The writes for one prepared memory work: its text is stored already or can be, and if it is one of the memories
    read, the old text finds an unused revision key.
   */
  ghost predicate CanBeStored(w: World, ids: seq<MemoryId>, memory: Memory, revision: RevisionId,
                              faults: MutationFaults)
  {
    var key := MemoryObject(memory.name, Sha256(Text(memory)));
    var body := RevisionObject(memory.id, revision);
    var named := memory.id in ids && memory.id in w.meta.memories;
    && ((named && w.meta.memories[memory.id].contentKey == key)
        || (faults.headUp && (key in w.objects || key !in faults.writes || faults.writes[key].WriteWorks?)))
    && (named ==> body !in w.objects && (body !in faults.writes || faults.writes[body].WriteWorks?))
  }

  lemma CanBeStoredIff(w: World, ids: seq<MemoryId>, memory: Memory, revision: RevisionId, faults: MutationFaults)
    requires Sound(w)
    ensures SnapshotWorks(w.objects, memory, TextBefore(TextsRead(w, ids), memory.id), revision, faults)
            <==> CanBeStored(w, ids, memory, revision, faults)
  {
    var id := memory.id;
    if id in ids && id in w.meta.memories {
      var key := w.meta.memories[id].contentKey;
      assert PointerOk(w.objects, w.meta.memories[id]) && key.MemoryObject?;
      assert KeyOf(w.objects[key].memory) == key by { assert w.objects[key] == Text(w.objects[key].memory); }
    }
  }

  lemma {:induction false} ExpectedHashIs(before: seq<(MemoryId, Hash)>, i: nat)
    requires i < |before| && forall j, k :: 0 <= j < k < |before| ==> before[j].0 != before[k].0
    ensures ExpectedHash(before, before[i].0) == Some(before[i].1)
  {
    if i < |before| - 1 { ExpectedHashIs(before[..|before| - 1], i); }
  }

  /** Every hash the request expects is the recorded one, and every memory it names has one. */
  ghost predicate ExpectsTheRecorded(m: Meta, c: Commit, ids: seq<MemoryId>) {
    && |c.before| == |ids|
    && (forall i :: 0 <= i < |c.before|
          ==> c.before[i].0 in m.memories && m.memories[c.before[i].0].contentHash == c.before[i].1)
    && forall id <- ids :: exists i :: 0 <= i < |c.before| && c.before[i].0 == id
  }

  lemma ExpectsTheRecordedIff(w: World, c: Commit, ids: seq<MemoryId>)
    requires forall j, k :: 0 <= j < k < |c.before| ==> c.before[j].0 != c.before[k].0
    ensures ExpectsTheRecorded(w.meta, c, ids)
            <==> HashesAsExpected(w, c, ids) && |c.before| == |ids|
                 && forall i :: 0 <= i < |c.before|
                      ==> c.before[i].0 in w.meta.memories
                          && w.meta.memories[c.before[i].0].contentHash == c.before[i].1
  {
    if ExpectsTheRecorded(w.meta, c, ids) {
      forall k | 0 <= k < |ids|
        ensures ids[k] in w.meta.memories
        ensures ExpectedHash(c.before, ids[k]) == Some(w.meta.memories[ids[k]].contentHash)
      {
        assert ids[k] in ids;
        var i :| 0 <= i < |c.before| && c.before[i].0 == ids[k];
        ExpectedHashIs(c.before, i);
      }
    } else if HashesAsExpected(w, c, ids) {
      forall id | id in ids ensures exists i :: 0 <= i < |c.before| && c.before[i].0 == id {
        var k :| 0 <= k < |ids| && ids[k] == id;
        ExpectedIsNamed(c.before, ids[k]);
      }
    }
  }

  /**
    The mutation commits exactly if the operation is new and the project writable, the settings recorded are enabled at
    the version stated, the memories named are cached and recorded with the hashes expected, the memories prepared from
    their stored texts can all be stored, the transaction reaches the documents, and the cap, the links to prune and the
    names are as it needs them.
   */
  lemma MutationTakesIff(w: World, c: Commit, ids: seq<MemoryId>, cached: set<MemoryId>, createName: Option<Name>,
                         prepare: map<MemoryId, Memory> -> Option<seq<Memory>>, revisions: nat -> RevisionId,
                         faults: MutationFaults)
    requires Sound(w) && PreparesDistinct(prepare)
    requires forall j, k :: 0 <= j < k < |c.before| ==> c.before[j].0 != c.before[k].0
    ensures Takes(w, c, ids, cached, createName, prepare, revisions, faults)
            <==> && c.operation !in w.meta.operations && (w.meta.shared || w.meta.revision.Some?)
                 && StatedSettingsHold(w.meta.shared, w.meta.settings, c.settingsVersion, c.action)
                 && (forall id <- ids :: id in cached) && ExpectsTheRecorded(w.meta, c, ids)
                 && (createName.Some? ==> createName.value !in w.meta.names)
                 && (faults.commit.CommitWorks? || faults.commit.applied)
                 && (c.maxActive.Some?
                     ==> w.meta.shared && c.action == Create && c.maxActive.value >= 1
                         && |set id | id in w.meta.memories && w.meta.memories[id].active| < c.maxActive.value)
                 && (c.action.PruneLinks?
                     ==> forall name <- c.action.names :: DeadLink(w.meta, c, c.action.memoryId, name))
                 && prepare(Stored(w, ids)).Some?
                 && var after := prepare(Stored(w, ids)).value;
                    && (forall n: nat :: n < |after| ==> CanBeStored(w, ids, after[n], revisions(n), faults))
                    && forall memory <- after ::
                         memory.name in w.meta.names ==> w.meta.names[memory.name].memoryId == memory.id
  {
    hide Stored, Sound, TextsRead, SnapshotWorks, CanBeStored, DeadLink, Committed, HashesAsExpected,
      ExpectsTheRecorded, SettingsAllow, StatedSettingsHold;
    ExpectsTheRecordedIff(w, c, ids);
    SettingsAllowIff(w.meta, c);
    AllCachedIff(ids, cached);
    if prepare(Stored(w, ids)).Some? {
      var after := prepare(Stored(w, ids)).value;
      assert PreparedDistinct(Some(after));
      forall n: nat | n < |after|
        ensures NthWorks(w.objects, after, TextsRead(w, ids), revisions, faults, n)
                <==> CanBeStored(w, ids, after[n], revisions(n), faults)
      {
        CanBeStoredIff(w, ids, after[n], revisions(n), faults);
      }
      CommitAppliedIff(w.meta, c, OwnRecords(after));
      NamesOfRecords(w.meta.names, after);
    }
  }

  lemma AllCachedIff(ids: seq<MemoryId>, cached: set<MemoryId>)
    ensures (forall i :: 0 <= i < |ids| ==> ids[i] in cached) <==> forall id <- ids :: id in cached
  {
    if forall id <- ids :: id in cached {
      forall i | 0 <= i < |ids| ensures ids[i] in cached { assert ids[i] in ids; }
    } else {
      var id :| id in ids && id !in cached;
      var i :| 0 <= i < |ids| && ids[i] == id;
    }
  }

  lemma SettingsAllowIff(m: Meta, c: Commit)
    ensures SettingsAllow(m, c) <==> StatedSettingsHold(m.shared, m.settings, c.settingsVersion, c.action)
  {
  }

  lemma NamesOfRecords(names: map<Name, NameEntry>, after: seq<Memory>)
    ensures (forall r <- OwnRecords(after) :: r.name in names ==> names[r.name].memoryId == r.id)
            <==> forall memory <- after :: memory.name in names ==> names[memory.name].memoryId == memory.id
  {
    if forall r <- OwnRecords(after) :: r.name in names ==> names[r.name].memoryId == r.id {
      forall memory | memory in after ensures memory.name in names ==> names[memory.name].memoryId == memory.id {
        var j :| 0 <= j < |after| && after[j] == memory;
        assert OwnRecords(after)[j] in OwnRecords(after);
      }
    }
  }

  /** The record is the memory's own: its fields, and the key and the hash of its text. */
  predicate RecordOf(r: Record, memory: Memory) {
    && r.id == memory.id && r.name == memory.name && r.links == memory.links && r.active == memory.active
    && r.rest == memory.rest && r.contentHash == Sha256(Text(memory))
    && r.contentKey == MemoryObject(memory.name, Sha256(Text(memory)))
  }

  /**
    The documents of a mutation that took effect: every prepared memory is recorded, all other memories are as they
    were, and the operation is recorded with its payload.
   */
  lemma MutationRecords(w: World, c: Commit, ids: seq<MemoryId>, cached: set<MemoryId>, createName: Option<Name>,
                        prepare: map<MemoryId, Memory> -> Option<seq<Memory>>, revisions: nat -> RevisionId,
                        faults: MutationFaults, s: Meta)
    requires Takes(w, c, ids, cached, createName, prepare, revisions, faults)
    requires MutationStored(w, c, ids, prepare, s)
    ensures prepare(Stored(w, ids)).Some?
    ensures var after := prepare(Stored(w, ids)).value;
            && (forall memory <- after :: memory.id in s.memories && RecordOf(s.memories[memory.id], memory))
            && (forall id :: (forall memory <- after :: memory.id != id)
                  ==> (id in s.memories <==> id in w.meta.memories)
                      && (id in s.memories ==> s.memories[id] == w.meta.memories[id]))
            && s.operations == w.meta.operations[c.operation := c.payload]
            && s.settings == w.meta.settings && s.observations == w.meta.observations
  {
    hide Stored, Committed;
    var after := prepare(Stored(w, ids)).value;
    CommitWrites(w.meta, c, OwnRecords(after));
    forall memory | memory in after ensures memory.id in s.memories && RecordOf(s.memories[memory.id], memory) {
      var j :| 0 <= j < |after| && after[j] == memory;
      assert OwnRecords(after)[j] in OwnRecords(after);
    }
  }

  // ----- save, update and rename -----

  /** After a save or an update the memory is recorded and indexed under its name, and nothing else changed. */
  lemma PutRecords(before: World, after: World, memory: Memory)
    requires PutAs(before, after, memory)
    ensures memory.id in after.meta.memories && RecordOf(after.meta.memories[memory.id], memory)
    ensures forall id :: id != memory.id
              ==> (id in after.meta.memories <==> id in before.meta.memories)
                  && (id in after.meta.memories ==> after.meta.memories[id] == before.meta.memories[id])
    ensures memory.name in after.meta.names && after.meta.names[memory.name].memoryId == memory.id
    ensures forall name :: name != memory.name
              ==> (name in after.meta.names <==> name in before.meta.names)
                  && (name in after.meta.names ==> after.meta.names[name] == before.meta.names[name])
    ensures after.meta.tombstones == before.meta.tombstones
  {
  }

  /** The memory an update stores: the given links or the old ones, the given text, and the rest as it was. */
  lemma UpdateRecords(before: World, after: World, row: Row, patch: Patch)
    requires Sound(before) && RowOk(row) && row.filePath in before.objects
    requires PutAs(before, after, Patched(before.objects[row.filePath].memory, patch))
    ensures row.id in after.meta.memories
    ensures var read, r := before.objects[row.filePath].memory, after.meta.memories[row.id];
            && r.id == row.id && r.name == row.name && r.active == read.active && r.rest == patch.rest
            && (patch.links.Some? ==> r.links == patch.links.value) && (patch.links.None? ==> r.links == read.links)
            && r.contentKey.MemoryObject? && r.contentKey.hash.text.memory.links == r.links
            && r.contentKey.hash.text.memory.rest == patch.rest
  {
    var read := before.objects[row.filePath].memory;
    assert PointerOk(before.objects, RowRecord(row, read));
    PutRecords(before, after, Patched(read, patch));
  }

  /**
    After a finished rename the first memory is recorded under its new name with its links rewritten, every other one
    under its old name with its links rewritten, and no memory outside the rename changed.
   */
  lemma RenameRecords(before: World, after: World, rows: seq<Row>, next: Name, rest: int, rewrite: Memory -> Memory,
                      now: int)
    requires Sound(before) && RowsOk(rows) && Rewrites(rewrite)
    requires RenameDone(before, after, rows, next, rest, rewrite, now)
    ensures forall i :: 0 <= i < |rows| ==> rows[i].filePath in before.objects && rows[i].id in after.meta.memories
    ensures var read, r := before.objects[rows[0].filePath].memory, after.meta.memories[rows[0].id];
            r.name == next && r.links == rewrite(read).links && r.active == read.active && r.rest == rest
              && RecordOf(r, Memory(rows[0].id, next, rewrite(read).links, read.active, rest))
    ensures forall i :: 0 < i < |rows|
              ==> RecordOf(after.meta.memories[rows[i].id], rewrite(before.objects[rows[i].filePath].memory))
                  && after.meta.memories[rows[i].id].name == rows[i].name
    ensures forall id :: (forall i :: 0 <= i < |rows| ==> rows[i].id != id)
              ==> (id in after.meta.memories <==> id in before.meta.memories)
                  && (id in after.meta.memories ==> after.meta.memories[id] == before.meta.memories[id])
  {
    hide Sound, RenameDone, RowOk;
    RenameReads(before, after, rows, next, rest, rewrite, now);
    RenameStores(before, after, rows, next, rest, rewrite, now, 0);
    forall i | 0 <= i < |rows|
      ensures var read := before.objects[rows[i].filePath].memory;
              && rows[i].id in after.meta.memories && read.id == rows[i].id && read.name == rows[i].name
              && after.meta.memories[rows[i].id]
                 == OwnRecord(if i == 0 then RenamedMemory(read, next, rest, rewrite) else rewrite(read))
    {
      RenameStores(before, after, rows, next, rest, rewrite, now, i);
    }
    forall id | forall i :: 0 <= i < |rows| ==> rows[i].id != id
      ensures id in after.meta.memories <==> id in before.meta.memories
      ensures id in after.meta.memories ==> after.meta.memories[id] == before.meta.memories[id]
    {
      RenameLeaves(before, after, rows, next, rest, rewrite, now, id);
    }
  }

  lemma RenameReads(before: World, after: World, rows: seq<Row>, next: Name, rest: int, rewrite: Memory -> Memory,
                    now: int)
    requires RenameDone(before, after, rows, next, rest, rewrite, now)
    ensures |rows| > 0 && forall i :: 0 <= i < |rows| ==> rows[i].filePath in before.objects
  {
  }

  lemma RenameStores(before: World, after: World, rows: seq<Row>, next: Name, rest: int, rewrite: Memory -> Memory,
                     now: int, i: nat)
    requires Sound(before) && RowsOk(rows) && Rewrites(rewrite) && i < |rows|
    requires RenameDone(before, after, rows, next, rest, rewrite, now)
    ensures rows[i].filePath in before.objects && rows[i].id in after.meta.memories
    ensures var read := before.objects[rows[i].filePath].memory;
            && read.id == rows[i].id && read.name == rows[i].name
            && after.meta.memories[rows[i].id]
               == OwnRecord(if i == 0 then RenamedMemory(read, next, rest, rewrite) else rewrite(read))
  {
    var r := Prepared(rows, before.objects, next, rest, rewrite, now);
    PreparedIsOk(before, rows, next, rest, rewrite, now);
    assert PointerOk(before.objects, RowRecord(rows[i], before.objects[rows[i].filePath].memory));
    hide Sound, NameTakenBy, SomeNameTaken, SetAll, BuryAll, Replace, RowsOk;
    NextIsFound(before, r, i);
    ReplacedMemory(before.meta, rows[0].name, r.next, r.tombs, rows[i].id);
  }

  lemma RenameLeaves(before: World, after: World, rows: seq<Row>, next: Name, rest: int, rewrite: Memory -> Memory,
                     now: int, id: MemoryId)
    requires Sound(before) && RowsOk(rows) && Rewrites(rewrite)
    requires RenameDone(before, after, rows, next, rest, rewrite, now)
    requires forall i :: 0 <= i < |rows| ==> rows[i].id != id
    ensures id in after.meta.memories <==> id in before.meta.memories
    ensures id in after.meta.memories ==> after.meta.memories[id] == before.meta.memories[id]
  {
    var r := Prepared(rows, before.objects, next, rest, rewrite, now);
    PreparedIsOk(before, rows, next, rest, rewrite, now);
    assert forall i :: 0 <= i < |r.next| ==> r.next[i].id == rows[i].id;
    hide Sound, NameTakenBy, SomeNameTaken, SetAll, BuryAll, Replace, RowsOk, RenamingOk;
    ReplacedMemory(before.meta, rows[0].name, r.next, r.tombs, id);
    assert Find(r.next, id).None?;
  }
}
