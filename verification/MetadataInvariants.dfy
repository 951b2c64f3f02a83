/**
  The name index of the Firestore metadata: it is a bijection with the memories in a run of the store's transactions
  exactly as long as puts and replacements speak of memories by the names they are recorded under, and the compensating
  transactions are guarded inverses of the ones they undo.
 */
module MetadataInvariants {
  import opened Base
  import opened MetadataStore

  ghost predicate MemoryOk(m: Meta, id: MemoryId) {
    id in m.memories ==>
      && m.memories[id].id == id && m.memories[id].name in m.names
          && m.names[m.memories[id].name] == EntryOf(m.memories[id])
  }

  ghost predicate NameOk(m: Meta, n: Name) {
    n in m.names ==> m.names[n].memoryId in m.memories && m.memories[m.names[n].memoryId].name == n
  }

  ghost predicate NameIndexOk(m: Meta) {
    (forall id :: MemoryOk(m, id)) && (forall n :: NameOk(m, n))
  }

  /** A name is indexed exactly when one memory has it, and the entry carries that memory's id, key and hash. */
  lemma IndexIsBijection(m: Meta, n: Name)
    requires NameIndexOk(m)
    ensures n in m.names <==> exists id :: id in m.memories && m.memories[id].name == n
    ensures forall id, id' ::
              id in m.memories && id' in m.memories && m.memories[id].name == n && m.memories[id'].name == n ==>
                id == id'
    ensures forall id :: id in m.memories && m.memories[id].name == n
              ==> m.names[n] == NameEntry(id, n, m.memories[id].contentKey, m.memories[id].contentHash)
  {
    if n in m.names { assert NameOk(m, n); }
    forall id | id in m.memories && m.memories[id].name == n
      ensures n in m.names && m.names[n] == EntryOf(m.memories[id]) && m.memories[id].id == id
    {
      assert MemoryOk(m, id);
    }
  }

  // ----- Single records -----

  /** A put keeps the index exactly when the memory is new or recorded under the name it is put with. */
  lemma PutKeepsIndexIff(m: Meta, r: Record, expectedRevision: Option<nat>)
    requires NameIndexOk(m) && Put(m, r, expectedRevision).Ok?
    ensures NameIndexOk(Put(m, r, expectedRevision).value) <==> (r.id in m.memories ==> m.memories[r.id].name == r.name)
  {
    var s := Put(m, r, expectedRevision).value;
    assert MemoryOk(m, r.id) && NameOk(m, r.name);
    if r.id in m.memories ==> m.memories[r.id].name == r.name {
      forall id ensures MemoryOk(s, id) { assert MemoryOk(m, id); }
      forall n ensures NameOk(s, n) { assert NameOk(m, n); }
    } else {
      assert !NameOk(s, m.memories[r.id].name);
    }
  }

  /** Taking an update back under the same name leaves the index as good or bad as the update had. */
  lemma UndonePutKeepsIndexIff(m: Meta, r: Record, previous: Record)
    requires NameIndexOk(m) && Put(m, r, None).Ok? && previous.id == r.id && previous.name == r.name
    ensures var undone := RestoreOne(Put(m, r, None).value, previous, PointerOf(r));
            && undone.Ok?
            && (NameIndexOk(undone.value) <==> (r.id in m.memories ==> m.memories[r.id].name == r.name))
  {
    var s := Put(m, r, None).value;
    var t := RestoreOne(s, previous, PointerOf(r)).value;
    PutKeepsIndexIff(m, r, None);
    if r.id in m.memories ==> m.memories[r.id].name == r.name {
      RestoreKeepsIndex(s, previous, PointerOf(r));
    } else {
      assert MemoryOk(m, r.id);
      assert !NameOk(t, m.memories[r.id].name);
    }
  }

  lemma RemoveKeepsIndex(m: Meta, id: MemoryId, expected: Pointer)
    requires NameIndexOk(m)
    ensures NameIndexOk(Remove(m, id, expected))
  {
    var s := Remove(m, id, expected);
    assert MemoryOk(m, id);
    forall id' ensures MemoryOk(s, id') { assert MemoryOk(m, id'); }
    forall n ensures NameOk(s, n) { assert NameOk(m, n); }
  }

  /** Writing one record after its memory has given up the name it held. */
  ghost function Renamed(m: Meta, r: Record): Meta {
    SetRecord(m.(names := if r.id in m.memories then m.names - {m.memories[r.id].name} else m.names), r)
  }

  lemma RenamedKeepsIndex(m: Meta, r: Record)
    requires NameIndexOk(m) && !NameTakenBy(m.names, r)
    ensures NameIndexOk(Renamed(m, r))
  {
    var s := Renamed(m, r);
    assert MemoryOk(m, r.id) && NameOk(m, r.name);
    forall id ensures MemoryOk(s, id) { assert MemoryOk(m, id); }
    forall n ensures NameOk(s, n) { assert NameOk(m, n); }
  }

  /** A restore either leaves the documents alone or gives the memory its record back under its name. */
  lemma RestoreIsRename(m: Meta, r: Record, expected: Pointer)
    requires NameIndexOk(m) && RestoreOne(m, r, expected).Ok?
    ensures var s := RestoreOne(m, r, expected).value;
            s == m || (!NameTakenBy(m.names, r) && s.memories == Renamed(m, r).memories
                       && s.names == Renamed(m, r).names)
  {
    assert MemoryOk(m, r.id);
    if r.id in m.memories {
      var n := m.memories[r.id].name;
      assert n == r.name ==> (m.names - {n})[r.name := EntryOf(r)] == m.names[r.name := EntryOf(r)];
    }
  }

  lemma RestoreKeepsIndex(m: Meta, r: Record, expected: Pointer)
    requires NameIndexOk(m) && RestoreOne(m, r, expected).Ok?
    ensures NameIndexOk(RestoreOne(m, r, expected).value)
  {
    RestoreIsRename(m, r, expected);
    var s := RestoreOne(m, r, expected).value;
    if s != m {
      RenamedKeepsIndex(m, r);
      SameDocumentsSameIndex(Renamed(m, r), s);
    }
  }

  lemma DeleteKeepsIndex(m: Meta, id: MemoryId, tomb: Tombstone)
    requires NameIndexOk(m)
    ensures NameIndexOk(Delete(m, id, tomb))
  {
    var s := Delete(m, id, tomb);
    assert MemoryOk(m, id);
    forall id' ensures MemoryOk(s, id') { assert MemoryOk(m, id'); }
    forall n ensures NameOk(s, n) { assert NameOk(m, n); }
  }

  // ----- Many records -----

  ghost predicate DistinctIds(rs: seq<Record>) {
    forall i, j :: 0 <= i < j < |rs| ==> rs[i].id != rs[j].id
  }

  ghost predicate DistinctNames(rs: seq<Record>) {
    forall i, j :: 0 <= i < j < |rs| ==> rs[i].name != rs[j].name
  }

  ghost function FindName(rs: seq<Record>, n: Name): (found: Option<Record>)
    ensures found.Some? ==> found.value in rs && found.value.name == n
    ensures found.None? ==> forall i :: 0 <= i < |rs| ==> rs[i].name != n
  {
    if rs == [] then None
    else if rs[|rs| - 1].name == n then Some(rs[|rs| - 1])
    else FindName(rs[..|rs| - 1], n)
  }

  lemma FindIs(rs: seq<Record>, r: Record)
    requires DistinctIds(rs) && r in rs
    ensures Find(rs, r.id) == Some(r)
  {
    var i :| 0 <= i < |rs| && rs[i] == r;
    var found := Find(rs, r.id);
    assert rs[i].id == r.id && found.Some?;
    var j :| 0 <= j < |rs| && rs[j] == found.value;
    assert i == j;
  }

  lemma FindNameIs(rs: seq<Record>, r: Record)
    requires DistinctNames(rs) && r in rs
    ensures FindName(rs, r.name) == Some(r)
  {
    var i :| 0 <= i < |rs| && rs[i] == r;
    var found := FindName(rs, r.name);
    assert rs[i].name == r.name && found.Some?;
    var j :| 0 <= j < |rs| && rs[j] == found.value;
    assert i == j;
  }

  /** The same documents, apart from memories and names. */
  ghost predicate SameRest(m: Meta, s: Meta) {
    s == m.(memories := s.memories, names := s.names)
  }

  lemma {:induction false} SetAllMemory(m: Meta, rs: seq<Record>, id: MemoryId)
    ensures SameRest(m, SetAll(m, rs))
    ensures var s := SetAll(m, rs); var found := Find(rs, id);
            if found.Some? then id in s.memories && s.memories[id] == found.value
            else (id in s.memories <==> id in m.memories) && (id in m.memories ==> s.memories[id] == m.memories[id])
  {
    if rs != [] { SetAllMemory(m, rs[..|rs| - 1], id); }
  }

  lemma {:induction false} SetAllName(m: Meta, rs: seq<Record>, n: Name)
    ensures var s := SetAll(m, rs); var found := FindName(rs, n);
            if found.Some? then n in s.names && s.names[n] == EntryOf(found.value)
            else (n in s.names <==> n in m.names) && (n in m.names ==> s.names[n] == m.names[n])
  {
    if rs != [] { SetAllName(m, rs[..|rs| - 1], n); }
  }

  lemma {:induction false} BuryKeepsDocuments(m: Meta, tombs: seq<Tombstone>)
    ensures BuryAll(m, tombs) == m.(tombstones := BuryAll(m, tombs).tombstones)
  {
    if tombs != [] { BuryKeepsDocuments(m, tombs[..|tombs| - 1]); }
  }

  lemma {:induction false} UnburyKeepsDocuments(m: Meta, tombs: seq<Tombstone>)
    ensures UnburyAll(m, tombs) == m.(tombstones := UnburyAll(m, tombs).tombstones)
  {
    if tombs != [] { UnburyKeepsDocuments(m, tombs[..|tombs| - 1]); }
  }

  lemma SameDocumentsSameIndex(m: Meta, s: Meta)
    requires NameIndexOk(m) && s.memories == m.memories && s.names == m.names
    ensures NameIndexOk(s)
  {
    forall id ensures MemoryOk(s, id) { assert MemoryOk(m, id); }
    forall n ensures NameOk(s, n) { assert NameOk(m, n); }
  }

  /**
    Writing a list of records over documents whose index is right wherever the list does not reach: the general
    reason why the many-record transactions keep the index. `kept` are the names left standing before the writes.
   */
  lemma SetAllKeepsIndex(m: Meta, base: Meta, rs: seq<Record>)
    requires NameIndexOk(m) && DistinctIds(rs) && DistinctNames(rs) && !SomeNameTaken(m.names, rs)
    requires forall id :: id in base.memories ==> id in m.memories && base.memories[id] == m.memories[id]
    requires forall n :: n in base.names ==> n in m.names && base.names[n] == m.names[n]
    requires forall id :: id in base.memories && Find(rs, id).None? ==> m.memories[id].name in base.names
    requires forall n :: n in base.names && FindName(rs, n).None?
               ==> m.names[n].memoryId in base.memories && Find(rs, m.names[n].memoryId).None?
    ensures NameIndexOk(SetAll(base, rs))
  {
    var s := SetAll(base, rs);
    forall id ensures MemoryOk(s, id) {
      SetAllMemory(base, rs, id);
      assert MemoryOk(m, id);
      var found := Find(rs, id);
      if found.Some? {
        FindNameIs(rs, found.value);
        SetAllName(base, rs, found.value.name);
      } else if id in base.memories {
        var n := m.memories[id].name;
        SetAllName(base, rs, n);
        forall i | 0 <= i < |rs| ensures rs[i].name != n {
          assert !NameTakenBy(m.names, rs[i]);
        }
      }
    }
    forall n ensures NameOk(s, n) {
      SetAllName(base, rs, n);
      assert NameOk(m, n);
      var found := FindName(rs, n);
      if found.Some? {
        FindIs(rs, found.value);
        SetAllMemory(base, rs, found.value.id);
      } else if n in base.names {
        SetAllMemory(base, rs, m.names[n].memoryId);
      }
    }
  }

  /**
    The records of a replacement fit the documents: the memory recorded under the old name is among them, and the others
    are recorded under the names they come with.
   */
  ghost predicate RecordsFit(m: Meta, oldName: Name, rs: seq<Record>) {
    && DistinctIds(rs) && DistinctNames(rs)
    && (oldName in m.names ==> Find(rs, m.names[oldName].memoryId).Some?)
    && forall i :: 0 <= i < |rs| && rs[i].id in m.memories
         ==> m.memories[rs[i].id].name == rs[i].name || m.memories[rs[i].id].name == oldName
  }

  /** A replacement of different memories keeps the index exactly when its records fit the documents. */
  lemma ReplaceKeepsIndexIff(m: Meta, oldName: Name, rs: seq<Record>, tombs: seq<Tombstone>)
    requires NameIndexOk(m) && DistinctIds(rs) && Replace(m, oldName, rs, tombs).Ok?
    ensures NameIndexOk(Replace(m, oldName, rs, tombs).value) <==> RecordsFit(m, oldName, rs)
  {
    var s := Replace(m, oldName, rs, tombs).value;
    if RecordsFit(m, oldName, rs) {
      FittingReplaceKeepsIndex(m, oldName, rs, tombs);
    }
    if NameIndexOk(s) {
      forall i, j | 0 <= i < j < |rs| ensures rs[i].name != rs[j].name {
        IndexedRecord(m, oldName, rs, tombs, i);
        IndexedRecord(m, oldName, rs, tombs, j);
      }
      forall i | 0 <= i < |rs| && rs[i].id in m.memories
        ensures m.memories[rs[i].id].name == rs[i].name || m.memories[rs[i].id].name == oldName
      {
        RecordedNameGoes(m, oldName, rs, tombs, i);
      }
      if oldName in m.names { OldOwnerIsAmong(m, oldName, rs, tombs); }
    }
  }

  lemma FittingReplaceKeepsIndex(m: Meta, oldName: Name, rs: seq<Record>, tombs: seq<Tombstone>)
    requires NameIndexOk(m) && RecordsFit(m, oldName, rs) && Replace(m, oldName, rs, tombs).Ok?
    ensures NameIndexOk(Replace(m, oldName, rs, tombs).value)
  {
    var base := if HasName(rs, oldName) then m else m.(names := m.names - {oldName});
    forall id | id in base.memories && Find(rs, id).None? ensures m.memories[id].name in base.names {
      assert MemoryOk(m, id);
    }
    forall n | n in base.names && FindName(rs, n).None?
      ensures m.names[n].memoryId in base.memories && Find(rs, m.names[n].memoryId).None?
    {
      assert NameOk(m, n);
      forall i | 0 <= i < |rs| ensures rs[i].id != m.names[n].memoryId { assert rs[i].name != n; }
    }
    SetAllKeepsIndex(m, base, rs);
    BuryKeepsDocuments(SetAll(base, rs), tombs);
    SameDocumentsSameIndex(SetAll(base, rs), Replace(m, oldName, rs, tombs).value);
  }

  /** If the index is in order afterwards, the name of each record leads to it. */
  lemma IndexedRecord(m: Meta, oldName: Name, rs: seq<Record>, tombs: seq<Tombstone>, i: nat)
    requires DistinctIds(rs) && Replace(m, oldName, rs, tombs).Ok? && i < |rs|
    requires NameIndexOk(Replace(m, oldName, rs, tombs).value)
    ensures var names := Replace(m, oldName, rs, tombs).value.names;
            rs[i].name in names && names[rs[i].name].memoryId == rs[i].id
  {
    FindIs(rs, rs[i]);
    ReplacedMemory(m, oldName, rs, tombs, rs[i].id);
    assert MemoryOk(Replace(m, oldName, rs, tombs).value, rs[i].id);
  }

  /** A name recorded before for one of the memories still leads to it, unless it is its new name or the old name. */
  lemma RecordedNameGoes(m: Meta, oldName: Name, rs: seq<Record>, tombs: seq<Tombstone>, i: nat)
    requires NameIndexOk(m) && DistinctIds(rs) && Replace(m, oldName, rs, tombs).Ok? && i < |rs|
    requires rs[i].id in m.memories && NameIndexOk(Replace(m, oldName, rs, tombs).value)
    ensures m.memories[rs[i].id].name == rs[i].name || m.memories[rs[i].id].name == oldName
  {
    var n := m.memories[rs[i].id].name;
    assert MemoryOk(m, rs[i].id);
    FindIs(rs, rs[i]);
    ReplacedMemory(m, oldName, rs, tombs, rs[i].id);
    ReplacedName(m, oldName, rs, tombs, n);
    assert NameOk(Replace(m, oldName, rs, tombs).value, n);
    var found := FindName(rs, n);
    if found.Some? {
      var j :| 0 <= j < |rs| && rs[j] == found.value;
      assert !NameTakenBy(m.names, rs[j]);
    }
  }

  lemma OldOwnerIsAmong(m: Meta, oldName: Name, rs: seq<Record>, tombs: seq<Tombstone>)
    requires NameIndexOk(m) && Replace(m, oldName, rs, tombs).Ok? && oldName in m.names
    requires NameIndexOk(Replace(m, oldName, rs, tombs).value)
    ensures Find(rs, m.names[oldName].memoryId).Some?
  {
    var id := m.names[oldName].memoryId;
    assert NameOk(m, oldName);
    ReplacedMemory(m, oldName, rs, tombs, id);
    ReplacedName(m, oldName, rs, tombs, oldName);
    assert MemoryOk(Replace(m, oldName, rs, tombs).value, id);
    if HasName(rs, oldName) {
      var j :| 0 <= j < |rs| && rs[j].name == oldName;
      assert !NameTakenBy(m.names, rs[j]);
    }
  }

  /** A dropped name or memory belongs to a record of `current` that has no previous state, or another name in it. */
  lemma {:induction false} DropCurrentMemory(m: Meta, previous: seq<Record>, current: seq<Record>, id: MemoryId)
    ensures var s := DropCurrent(m, previous, current);
            && SameRest(m, s)
            && (id in s.memories <==> id in m.memories && !(Find(current, id).Some? && Find(previous, id).None?))
            && (id in s.memories ==> s.memories[id] == m.memories[id])
  {
    if current != [] { DropCurrentMemory(m, previous, current[..|current| - 1], id); }
  }

  ghost predicate GivesUp(previous: seq<Record>, r: Record, n: Name) {
    r.name == n && (Find(previous, r.id).None? || Find(previous, r.id).value.name != n)
  }

  lemma {:induction false} DropCurrentName(m: Meta, previous: seq<Record>, current: seq<Record>, n: Name)
    ensures var s := DropCurrent(m, previous, current);
            && (n in s.names <==> n in m.names && forall i :: 0 <= i < |current| ==> !GivesUp(previous, current[i], n))
            && (n in s.names ==> s.names[n] == m.names[n])
  {
    if current != [] {
      var k := |current| - 1;
      DropCurrentName(m, previous, current[..k], n);
      assert forall i :: 0 <= i < k ==> current[..k][i] == current[i];
      assert (forall i :: 0 <= i < |current| ==> !GivesUp(previous, current[i], n))
        <==> (forall i :: 0 <= i < k ==> !GivesUp(previous, current[..k][i], n)) && !GivesUp(previous, current[k], n);
    }
  }

  /** How rename calls `restoreMemoryIndexes`: every memory it puts back is among the ones it undoes. */
  ghost predicate RestoreAllCall(m: Meta, previous: seq<Record>, current: seq<Record>) {
    && DistinctIds(previous) && DistinctNames(previous) && DistinctIds(current)
    && forall i :: 0 <= i < |previous| && previous[i].id in m.memories ==> Find(current, previous[i].id).Some?
  }

  lemma RestoreAllKeepsIndex(m: Meta, previous: seq<Record>, current: seq<Record>, tombs: seq<Tombstone>)
    requires NameIndexOk(m) && RestoreAllCall(m, previous, current) && RestoreAll(m, previous, current, tombs).Ok?
    ensures NameIndexOk(RestoreAll(m, previous, current, tombs).value)
  {
    var base := DropCurrent(m, previous, current);
    forall id
      ensures id in base.memories ==> id in m.memories && base.memories[id] == m.memories[id]
    {
      DropCurrentMemory(m, previous, current, id);
    }
    forall n
      ensures n in base.names ==> n in m.names && base.names[n] == m.names[n]
    {
      DropCurrentName(m, previous, current, n);
    }
    forall id | id in base.memories && Find(previous, id).None? ensures m.memories[id].name in base.names {
      UntouchedKeepsName(m, previous, current, id);
    }
    forall n | n in base.names && FindName(previous, n).None?
      ensures m.names[n].memoryId in base.memories && Find(previous, m.names[n].memoryId).None?
    {
      StandingNameIsUntouched(m, previous, current, n);
    }
    SetAllKeepsIndex(m, base, previous);
    UnburyKeepsDocuments(SetAll(base, previous), tombs);
    SameDocumentsSameIndex(SetAll(base, previous), RestoreAll(m, previous, current, tombs).value);
  }

  /** The shape of a rename and its undo: the first memory goes from the old name to another, the others keep theirs. */
  ghost predicate RenameShape(oldName: Name, previous: seq<Record>, next: seq<Record>) {
    && |previous| == |next| && |next| > 0 && previous[0].name == oldName
    && DistinctIds(next) && DistinctNames(next) && DistinctNames(previous)
    && (forall i :: 0 <= i < |next| ==> previous[i].id == next[i].id)
    && forall i :: 0 < i < |next| ==> previous[i].name == next[i].name
  }

  /** Taking a rename back leaves the index in order exactly when the rename had: the undo repairs nothing. */
  lemma UndoneReplaceKeepsIndexIff(m: Meta, oldName: Name, previous: seq<Record>, next: seq<Record>,
                                   tombs: seq<Tombstone>)
    requires NameIndexOk(m) && RenameShape(oldName, previous, next) && Replace(m, oldName, next, tombs).Ok?
    requires RestoreAll(Replace(m, oldName, next, tombs).value, previous, next, tombs).Ok?
    ensures NameIndexOk(RestoreAll(Replace(m, oldName, next, tombs).value, previous, next, tombs).value)
            <==> RecordsFit(m, oldName, next)
  {
    hide Replace, RestoreAll;
    var s := Replace(m, oldName, next, tombs).value;
    var t := RestoreAll(s, previous, next, tombs).value;
    ReplaceKeepsIndexIff(m, oldName, next, tombs);
    if RecordsFit(m, oldName, next) {
      forall i | 0 <= i < |previous| ensures Find(next, previous[i].id).Some? { FindIs(next, next[i]); }
      RestoreAllKeepsIndex(s, previous, next, tombs);
    }
    if NameIndexOk(t) {
      if oldName in m.names { UndoneOwnerIsAmong(m, oldName, previous, next, tombs); }
      forall i | 0 <= i < |next| && next[i].id in m.memories
        ensures m.memories[next[i].id].name == next[i].name || m.memories[next[i].id].name == oldName
      {
        UndoneNameGoes(m, oldName, previous, next, tombs, i);
      }
    }
  }

  /** Nothing stands in the way of taking a rename back. */
  lemma UndoOfReplaceWorks(m: Meta, oldName: Name, previous: seq<Record>, next: seq<Record>, tombs: seq<Tombstone>)
    requires RenameShape(oldName, previous, next) && next[0].name != oldName && Replace(m, oldName, next, tombs).Ok?
    ensures RestoreAll(Replace(m, oldName, next, tombs).value, previous, next, tombs).Ok?
  {
    hide Replace;
    var s := Replace(m, oldName, next, tombs).value;
    forall i | 0 <= i < |next| ensures StillCurrent(s, next[i]) && !NameTakenBy(s.names, previous[i]) {
      FindIs(next, next[i]);
      FindNameIs(next, next[i]);
      ReplacedMemory(m, oldName, next, tombs, next[i].id);
      ReplacedName(m, oldName, next, tombs, next[i].name);
      if i == 0 { OldNameIsGone(m, oldName, previous, next, tombs); }
    }
  }

  lemma OldNameIsGone(m: Meta, oldName: Name, previous: seq<Record>, next: seq<Record>, tombs: seq<Tombstone>)
    requires RenameShape(oldName, previous, next) && next[0].name != oldName && Replace(m, oldName, next, tombs).Ok?
    ensures oldName !in Replace(m, oldName, next, tombs).value.names
  {
    forall i | 0 <= i < |next| ensures next[i].name != oldName {
      if i > 0 { assert previous[i].name == next[i].name && previous[0].name != previous[i].name; }
    }
    ReplacedName(m, oldName, next, tombs, oldName);
  }

  lemma RestoredDocuments(m: Meta, previous: seq<Record>, current: seq<Record>, tombs: seq<Tombstone>)
    requires RestoreAll(m, previous, current, tombs).Ok?
    ensures var t, stored :=
            RestoreAll(m, previous, current, tombs).value, SetAll(DropCurrent(m, previous, current), previous);
            t.memories == stored.memories && t.names == stored.names
  {
    UnburyKeepsDocuments(SetAll(DropCurrent(m, previous, current), previous), tombs);
  }

  lemma UndoneOwnerIsAmong(m: Meta, oldName: Name, previous: seq<Record>, next: seq<Record>, tombs: seq<Tombstone>)
    requires NameIndexOk(m) && RenameShape(oldName, previous, next) && Replace(m, oldName, next, tombs).Ok?
    requires RestoreAll(Replace(m, oldName, next, tombs).value, previous, next, tombs).Ok? && oldName in m.names
    requires NameIndexOk(RestoreAll(Replace(m, oldName, next, tombs).value, previous, next, tombs).value)
    ensures Find(next, m.names[oldName].memoryId).Some?
  {
    hide Replace, RestoreAll, NameTakenBy;
    var s := Replace(m, oldName, next, tombs).value;
    var t := RestoreAll(s, previous, next, tombs).value;
    var id := m.names[oldName].memoryId;
    assert NameOk(m, oldName) && MemoryOk(t, id);
    RestoredDocuments(s, previous, next, tombs);
    ReplacedMemory(m, oldName, next, tombs, id);
    DropCurrentMemory(s, previous, next, id);
    SetAllMemory(DropCurrent(s, previous, next), previous, id);
    SetAllName(DropCurrent(s, previous, next), previous, oldName);
    FindNameIs(previous, previous[0]);
  }

  lemma UndoneNameGoes(m: Meta, oldName: Name, previous: seq<Record>, next: seq<Record>, tombs: seq<Tombstone>, i: nat)
    requires NameIndexOk(m) && RenameShape(oldName, previous, next) && Replace(m, oldName, next, tombs).Ok?
    requires RestoreAll(Replace(m, oldName, next, tombs).value, previous, next, tombs).Ok?
    requires NameIndexOk(RestoreAll(Replace(m, oldName, next, tombs).value, previous, next, tombs).value)
    requires i < |next| && next[i].id in m.memories
    ensures m.memories[next[i].id].name == next[i].name || m.memories[next[i].id].name == oldName
  {
    hide RestoreAll;
    var s := Replace(m, oldName, next, tombs).value;
    var t := RestoreAll(s, previous, next, tombs).value;
    var id := next[i].id;
    var n := m.memories[id].name;
    assert MemoryOk(m, id) && NameOk(t, n);
    RestoredDocuments(s, previous, next, tombs);
    ReplacedName(m, oldName, next, tombs, n);
    DropCurrentName(s, previous, next, n);
    SetAllName(DropCurrent(s, previous, next), previous, n);
    SetAllMemory(DropCurrent(s, previous, next), previous, id);
  }

  lemma UntouchedKeepsName(m: Meta, previous: seq<Record>, current: seq<Record>, id: MemoryId)
    requires NameIndexOk(m) && (forall i :: 0 <= i < |current| ==> StillCurrent(m, current[i]))
    requires id in DropCurrent(m, previous, current).memories && Find(previous, id).None?
    ensures id in m.memories && m.memories[id].name in DropCurrent(m, previous, current).names
  {
    DropCurrentMemory(m, previous, current, id);
    assert MemoryOk(m, id);
    var n := m.memories[id].name;
    DropCurrentName(m, previous, current, n);
    forall i | 0 <= i < |current| ensures !GivesUp(previous, current[i], n) {
      assert StillCurrent(m, current[i]);
    }
  }

  lemma StandingNameIsUntouched(m: Meta, previous: seq<Record>, current: seq<Record>, n: Name)
    requires NameIndexOk(m) && RestoreAllCall(m, previous, current)
    requires (forall i :: 0 <= i < |current| ==> StillCurrent(m, current[i]))
    requires n in DropCurrent(m, previous, current).names && FindName(previous, n).None?
    ensures n in m.names && m.names[n].memoryId in DropCurrent(m, previous, current).memories
    ensures Find(previous, m.names[n].memoryId).None?
  {
    DropCurrentName(m, previous, current, n);
    assert NameOk(m, n);
    var id := m.names[n].memoryId;
    DropCurrentMemory(m, previous, current, id);
    forall j | 0 <= j < |current| ensures current[j].id != id {
      assert StillCurrent(m, current[j]) && NameOk(m, current[j].name);
      assert !GivesUp(previous, current[j], n);
    }
    forall i | 0 <= i < |previous| ensures previous[i].id != id {
      assert previous[i].id in m.memories ==> Find(current, previous[i].id).Some?;
    }
  }

  /** How mutations are committed: every record of an existing memory comes with the hash it replaces. */
  ghost predicate CommitCall(m: Meta, c: Commit, rs: seq<Record>) {
    && DistinctIds(rs) && DistinctNames(rs)
    && forall i :: 0 <= i < |rs| && rs[i].id in m.memories ==> IsNamed(c.before, rs[i].id)
  }

  lemma {:induction false} DropRenamedAt(m: Meta, before: seq<(MemoryId, Hash)>, rs: seq<Record>, n: Name)
    requires NameIndexOk(m)
    ensures var names := DropRenamed(m, before, rs);
            && (n in names ==> n in m.names && names[n] == m.names[n])
            && (n in m.names
                ==> (n in names <==> !(IsNamed(before, m.names[n].memoryId) && Find(rs, m.names[n].memoryId).Some?
                                                    && Find(rs, m.names[n].memoryId).value.name != n)))
  {
    if before != [] {
      var k := |before| - 1;
      DropRenamedAt(m, before[..k], rs, n);
      assert NameOk(m, n) && MemoryOk(m, before[k].0);
      forall id ensures IsNamed(before, id) <==> IsNamed(before[..k], id) || before[k].0 == id {
        if IsNamed(before[..k], id) { var i :| 0 <= i < k && before[..k][i].0 == id; assert before[i].0 == id; }
      }
    }
  }

  lemma CommitKeepsIndex(m: Meta, c: Commit, rs: seq<Record>)
    requires NameIndexOk(m) && CommitCall(m, c, rs)
    ensures NameIndexOk(Committed(m, c, rs).1)
  {
    if Committed(m, c, rs).0 == Ok(Applied) {
      var base := m.(names := DropRenamed(m, c.before, rs));
      forall n
        ensures n in base.names ==> n in m.names && base.names[n] == m.names[n]
      {
        DropRenamedAt(m, c.before, rs, n);
      }
      forall id | id in base.memories && Find(rs, id).None? ensures m.memories[id].name in base.names {
        assert MemoryOk(m, id);
        DropRenamedAt(m, c.before, rs, m.memories[id].name);
      }
      forall n | n in base.names && FindName(rs, n).None?
        ensures m.names[n].memoryId in base.memories && Find(rs, m.names[n].memoryId).None?
      {
        DropRenamedAt(m, c.before, rs, n);
        assert NameOk(m, n);
        forall i | 0 <= i < |rs| ensures rs[i].id != m.names[n].memoryId {
          assert rs[i].id in m.memories ==> IsNamed(c.before, rs[i].id);
          FindIs(rs, rs[i]);
        }
      }
      SetAllKeepsIndex(m, base, rs);
      SameDocumentsSameIndex(SetAll(base, rs), Committed(m, c, rs).1);
    }
  }

  // ----- Runs -----

  /** The calls the services make on the metadata of one project, by any number of writers. */
  datatype Call =
    | PutCall(r: Record, expectedRevision: Option<nat>)
    | RemoveCall(id: MemoryId, expected: Pointer)
    | RestoreCall(r: Record, expected: Pointer)
    | RestoreManyCall(previous: seq<Record>, current: seq<Record>, tombs: seq<Tombstone>)
    | ReplaceManyCall(oldName: Name, next: seq<Record>, tombs: seq<Tombstone>)
    | DeleteCall(id: MemoryId, tomb: Tombstone)
    | CommitMutationCall(commit: Commit, records: seq<Record>)
    | PutTombstone(tomb: Tombstone)
    | ClearTombstone(key: Key)
    | SaveSettings(enabled: bool, rest: int, expectedVersion: nat)
    | Observe(memory: MemoryId, name: Name, at: int)
    | ClearObservation(memory: MemoryId, name: Name)

  /** The version that a settings transaction compares with the expected one. */
  function VersionOf(settings: Option<Settings>): nat { if settings.Some? then settings.value.version else 0 }

  /** What a transaction leaves behind; one that throws leaves everything. */
  ghost function OrElse(result: Result<Meta, Failure>, m: Meta): Meta {
    if result.Ok? then result.value else m
  }

  ghost function After(m: Meta, call: Call): Meta {
    match call
    case PutCall(r, revision) => OrElse(Put(m, r, revision), m)
    case RemoveCall(id, expected) => Remove(m, id, expected)
    case RestoreCall(r, expected) => OrElse(RestoreOne(m, r, expected), m)
    case RestoreManyCall(previous, current, tombs) => OrElse(RestoreAll(m, previous, current, tombs), m)
    case ReplaceManyCall(oldName, next, tombs) => OrElse(Replace(m, oldName, next, tombs), m)
    case DeleteCall(id, tomb) => Delete(m, id, tomb)
    case CommitMutationCall(c, records) => Committed(m, c, records).1
    case PutTombstone(tomb) => m.(tombstones := m.tombstones[tomb.contentKey := tomb])
    case ClearTombstone(key) => m.(tombstones := m.tombstones - {key})
    case SaveSettings(enabled, rest, expected) =>
      if VersionOf(m.settings) != expected then m else m.(settings := Some(Settings(enabled, expected + 1, rest)))
    case Observe(id, name, at) =>
      if (id, name) in m.observations then m else m.(observations := m.observations[(id, name) := at])
    case ClearObservation(id, name) => m.(observations := m.observations - {(id, name)})
  }

  /** The calls have the form the services give them, whatever state the documents and the cache are in. */
  ghost predicate AsCalled(m: Meta, call: Call) {
    match call
    case RestoreManyCall(previous, current, _) => RestoreAllCall(m, previous, current)
    case ReplaceManyCall(_, next, _) => DistinctIds(next)
    case CommitMutationCall(c, records) => CommitCall(m, c, records)
    case _ => true
  }

  /**
    What a put or a replacement says fits the documents. A service builds it from a cache row, and it fits if the row
    carries the name under which its memory is recorded.
   */
  ghost predicate Fits(m: Meta, call: Call) {
    match call
    case PutCall(r, _) => r.id in m.memories ==> m.memories[r.id].name == r.name
    case ReplaceManyCall(oldName, next, _) => RecordsFit(m, oldName, next)
    case _ => true
  }

  ghost predicate Throws(m: Meta, call: Call) {
    match call
    case PutCall(r, revision) => Put(m, r, revision).Err?
    case ReplaceManyCall(oldName, next, tombs) => Replace(m, oldName, next, tombs).Err?
    case _ => false
  }

  ghost predicate IsRun(tr: seq<Meta>, calls: seq<Call>) {
    && |tr| == |calls| + 1 && tr[0].memories == map[] && tr[0].names == map[]
    && forall i :: 0 <= i < |calls| ==> AsCalled(tr[i], calls[i]) && tr[i + 1] == After(tr[i], calls[i])
  }

  /** A call keeps the index exactly if what it says fits the documents, or it throws. */
  lemma CallKeepsIndexIff(m: Meta, call: Call)
    requires NameIndexOk(m) && AsCalled(m, call)
    ensures NameIndexOk(After(m, call)) <==> Fits(m, call) || Throws(m, call)
  {
    hide NameIndexOk, Put, RestoreOne, RestoreAll, Replace, Delete, Committed, Remove, RecordsFit;
    match call
    case PutCall(r, revision) => if Put(m, r, revision).Ok? { PutKeepsIndexIff(m, r, revision); }
    case RemoveCall(id, expected) => RemoveKeepsIndex(m, id, expected);
    case RestoreCall(r, expected) => if RestoreOne(m, r, expected).Ok? { RestoreKeepsIndex(m, r, expected); }
    case RestoreManyCall(previous, current, tombs) =>
      if RestoreAll(m, previous, current, tombs).Ok? { RestoreAllKeepsIndex(m, previous, current, tombs); }
    case ReplaceManyCall(oldName, next, tombs) =>
      if Replace(m, oldName, next, tombs).Ok? { ReplaceKeepsIndexIff(m, oldName, next, tombs); }
    case DeleteCall(id, tomb) => DeleteKeepsIndex(m, id, tomb);
    case CommitMutationCall(c, records) => CommitKeepsIndex(m, c, records);
    case PutTombstone(_) => SameDocumentsSameIndex(m, After(m, call));
    case ClearTombstone(_) => SameDocumentsSameIndex(m, After(m, call));
    case SaveSettings(_, _, _) => SameDocumentsSameIndex(m, After(m, call));
    case Observe(_, _, _) => SameDocumentsSameIndex(m, After(m, call));
    case ClearObservation(_, _) => SameDocumentsSameIndex(m, After(m, call));
  }

  ghost predicate FitsOrThrows(tr: seq<Meta>, calls: seq<Call>, i: nat)
    requires i < |tr| && i < |calls|
  {
    Fits(tr[i], calls[i]) || Throws(tr[i], calls[i])
  }

  /**
    Up to a state of a run the index has been a bijection throughout exactly if every call before it fitted or threw.
   */
  lemma {:induction false} RunKeepsIndexIff(tr: seq<Meta>, calls: seq<Call>, n: nat)
    requires IsRun(tr, calls) && n < |tr|
    ensures (forall i :: 0 <= i <= n ==> NameIndexOk(tr[i])) <==> forall i :: 0 <= i < n ==> FitsOrThrows(tr, calls, i)
  {
    hide NameIndexOk, Fits, Throws, AsCalled, After;
    if n == 0 {
      EmptyIndexIsOk(tr[0]);
    } else {
      RunKeepsIndexIff(tr, calls, n - 1);
      assert AsCalled(tr[n - 1], calls[n - 1]) && tr[n - 1 + 1] == After(tr[n - 1], calls[n - 1]);
      if NameIndexOk(tr[n - 1]) { CallKeepsIndexIff(tr[n - 1], calls[n - 1]); }
      assert FitsOrThrows(tr, calls, n - 1) <==> Fits(tr[n - 1], calls[n - 1]) || Throws(tr[n - 1], calls[n - 1]);
      if forall i :: 0 <= i < n ==> FitsOrThrows(tr, calls, i) {
        assert NameIndexOk(tr[n - 1]) && NameIndexOk(tr[n]);
      }
      if forall i :: 0 <= i <= n ==> NameIndexOk(tr[i]) {
        assert NameIndexOk(tr[n - 1]) && NameIndexOk(tr[n]) && FitsOrThrows(tr, calls, n - 1);
      }
    }
  }

  lemma EmptyIndexIsOk(m: Meta)
    requires m.memories == map[] && m.names == map[]
    ensures NameIndexOk(m)
  {
  }

  /** No call forgets an operation that was applied. */
  lemma OperationsStay(m: Meta, call: Call, operation: OperationId)
    requires operation in m.operations
    ensures operation in After(m, call).operations && After(m, call).operations[operation] == m.operations[operation]
  {
    match call
    case RestoreManyCall(previous, current, tombs) => RestoreAllKeepsOperations(m, previous, current, tombs);
    case ReplaceManyCall(oldName, next, tombs) => ReplaceKeepsOperations(m, oldName, next, tombs);
    case CommitMutationCall(c, records) => SetAllMemory(m.(names := DropRenamed(m, c.before, records)), records, 0);
    case _ =>
  }

  lemma RestoreAllKeepsOperations(m: Meta, previous: seq<Record>, current: seq<Record>, tombs: seq<Tombstone>)
    ensures OrElse(RestoreAll(m, previous, current, tombs), m).operations == m.operations
  {
    DropCurrentMemory(m, previous, current, 0);
    SetAllMemory(DropCurrent(m, previous, current), previous, 0);
    UnburyKeepsDocuments(SetAll(DropCurrent(m, previous, current), previous), tombs);
  }

  lemma ReplaceKeepsOperations(m: Meta, oldName: Name, next: seq<Record>, tombs: seq<Tombstone>)
    ensures OrElse(Replace(m, oldName, next, tombs), m).operations == m.operations
  {
    var dropped := if HasName(next, oldName) then m else m.(names := m.names - {oldName});
    SetAllMemory(dropped, next, 0);
    BuryKeepsDocuments(SetAll(dropped, next), tombs);
  }

  lemma {:induction false} OperationsStayForever(tr: seq<Meta>, calls: seq<Call>, i: nat, j: nat,
                                                 operation: OperationId)
    requires IsRun(tr, calls) && i <= j < |tr| && operation in tr[i].operations
    ensures operation in tr[j].operations && tr[j].operations[operation] == tr[i].operations[operation]
  {
    if i < j {
      OperationsStayForever(tr, calls, i, j - 1, operation);
      OperationsStay(tr[j - 1], calls[j - 1], operation);
      assert tr[j - 1 + 1] == After(tr[j - 1], calls[j - 1]);
    }
  }

  /** An operation is applied at most once in a run; a later commit of it changes nothing and says so. */
  lemma CommitsOnce(tr: seq<Meta>, calls: seq<Call>, i: nat, j: nat)
    requires IsRun(tr, calls) && i < j < |calls| && calls[i].CommitMutationCall? && calls[j].CommitMutationCall?
    requires calls[i].commit.operation == calls[j].commit.operation
    requires Committed(tr[i], calls[i].commit, calls[i].records).0 == Ok(Applied)
    ensures tr[j + 1] == tr[j]
    ensures Committed(tr[j], calls[j].commit, calls[j].records).0
            == Ok(if calls[j].commit.payload == calls[i].commit.payload then AlreadyApplied else Conflict)
  {
    var c := calls[i].commit;
    SetAllMemory(tr[i].(names := DropRenamed(tr[i], c.before, calls[i].records)), calls[i].records, 0);
    assert tr[i + 1] == After(tr[i], calls[i]);
    assert tr[i + 1].operations[c.operation] == c.payload;
    OperationsStayForever(tr, calls, i + 1, j, c.operation);
  }

  // ----- Compensations -----

  /** Everything except the project's revision counter is as it was. */
  ghost predicate SameDocuments(m: Meta, s: Meta) {
    s == m.(revision := s.revision)
  }

  /** A save that is taken back leaves no trace. */
  lemma RemoveUndoesPut(m: Meta, r: Record, expectedRevision: Option<nat>)
    requires NameIndexOk(m) && r.id !in m.memories && Put(m, r, expectedRevision).Ok?
    ensures SameDocuments(m, Remove(Put(m, r, expectedRevision).value, r.id, PointerOf(r)))
  {
    assert NameOk(m, r.name);
    var s := Put(m, r, expectedRevision).value;
    assert s.memories - {r.id} == m.memories;
    assert s.names - {r.name} == m.names;
  }

  /** An update that is taken back with the true previous record leaves no trace. */
  lemma RestoreUndoesPut(m: Meta, r: Record, expectedRevision: Option<nat>)
    requires NameIndexOk(m) && r.id in m.memories && m.memories[r.id].name == r.name && Put(m, r, expectedRevision).Ok?
    ensures var undone := RestoreOne(Put(m, r, expectedRevision).value, m.memories[r.id], PointerOf(r));
            undone.Ok? && SameDocuments(m, undone.value)
  {
    assert MemoryOk(m, r.id);
    var p := m.memories[r.id];
    assert m.memories[r.id := r][r.id := p] == m.memories;
    assert m.names[r.name := EntryOf(r)][r.name := EntryOf(p)] == m.names;
  }

  /** A forget that is taken back restores memory and name; the tombstones are as before exactly if the key had none. */
  lemma RestoreUndoesDelete(m: Meta, id: MemoryId, deletedAt: int)
    requires NameIndexOk(m) && id in m.memories
    ensures var p := m.memories[id];
            var undone := RestoreOne(Delete(m, id, Tombstone(id, p.contentKey, deletedAt)), p, PointerOf(p));
            && undone.Ok? && SameDocuments(m.(tombstones := undone.value.tombstones), undone.value)
            && (undone.value.tombstones == m.tombstones <==> p.contentKey !in m.tombstones)
  {
    assert MemoryOk(m, id);
    var p := m.memories[id];
    var tomb := Tombstone(id, p.contentKey, deletedAt);
    var s := Delete(m, id, tomb);
    assert s.memories[id := p] == m.memories;
    assert s.names[p.name := EntryOf(p)] == m.names;
    assert s.tombstones - {p.contentKey} == m.tombstones - {p.contentKey};
    if p.contentKey !in m.tombstones { assert m.tombstones - {p.contentKey} == m.tombstones; }
  }

  /**
    What a restore does when another writer may have come in between. It puts the record back exactly if the memory
    still holds what is being undone, or is gone and buried under the very key being restored; it throws exactly if then
    another memory has taken the name; otherwise it changes nothing at all.
   */
  lemma RestoreIsGuarded(m: Meta, r: Record, expected: Pointer)
    requires NameIndexOk(m)
    ensures var buried := && r.contentKey in m.tombstones && m.tombstones[r.contentKey].memoryId == r.id
                          && m.tombstones[r.contentKey].contentKey == r.contentKey;
            var mine := if r.id in m.memories then PointerOf(m.memories[r.id]) == expected else buried;
            var taken := exists id :: id in m.memories && id != r.id && m.memories[id].name == r.name;
            var result := RestoreOne(m, r, expected);
            && (!mine ==> result == Ok(m)) && (mine && taken ==> result == Err(NameTaken))
            && (mine && !taken
                ==> result.Ok? && StillCurrent(result.value, r) && result.value.memories == m.memories[r.id := r])
  {
    assert NameOk(m, r.name);
    forall id | id in m.memories && m.memories[id].name == r.name
      ensures r.name in m.names && m.names[r.name].memoryId == id
    {
      assert MemoryOk(m, id);
    }
    if r.id in m.memories { assert MemoryOk(m, r.id); }
  }

  /** The memory 1 at the key of its first text, and at the key of its second. */
  function TwoTexts(): (Record, Record) {
    var first, second := Text(Memory(1, 10, [], true, 0)), Text(Memory(1, 10, [], true, 1));
    (Record(1, 10, MemoryObject(10, Sha256(first)), Sha256(first), [], true, 0),
     Record(1, 10, MemoryObject(10, Sha256(second)), Sha256(second), [], true, 1))
  }

  /**
    A restore can bring back what another writer deleted: an update puts the second record, another writer with a stale
    row then deletes the memory under the key of the first, and the update is taken back.
   */
  lemma RestoreBringsBackDeleted()
    ensures var (first, second) := TwoTexts();
            var m := SetRecord(Meta(true, Some(0), map[], map[], map[], None, map[], map[]), first);
            var put := Put(m, second, None);
            && NameIndexOk(m) && put.Ok?
            && var deleted := Delete(put.value, 1, Tombstone(1, first.contentKey, 0));
               var restored := RestoreOne(deleted, first, PointerOf(second));
               1 !in deleted.memories && restored.Ok? && 1 in restored.value.memories
  {
    var (first, second) := TwoTexts();
    var m := SetRecord(Meta(true, Some(0), map[], map[], map[], None, map[], map[]), first);
    assert MemoryOk(m, 1) && NameOk(m, 10);
  }

  /** A removal takes the memory away exactly if it still holds what the save wrote; otherwise it changes nothing. */
  lemma RemoveIsGuarded(m: Meta, id: MemoryId, expected: Pointer)
    requires NameIndexOk(m)
    ensures var s := Remove(m, id, expected);
            if id in m.memories && PointerOf(m.memories[id]) == expected
            then s.memories == m.memories - {id} && forall n :: n in s.names
                                                      <==> n in m.names && m.names[n].memoryId != id
            else s == m
  {
    if id in m.memories {
      assert MemoryOk(m, id);
      forall n ensures n in m.names && m.names[n].memoryId == id ==> n == m.memories[id].name { assert NameOk(m, n); }
    }
  }

  /** The true previous records of a rename. */
  ghost predicate TruePrevious(m: Meta, previous: seq<Record>, next: seq<Record>) {
    |previous| == |next| && forall i :: 0 <= i < |next|
                              ==> next[i].id in m.memories && previous[i] == m.memories[next[i].id]
  }

  ghost predicate Buried(tombs: seq<Tombstone>, key: Key) {
    exists i :: 0 <= i < |tombs| && tombs[i].contentKey == key
  }

  lemma {:induction false} BuryAt(m: Meta, tombs: seq<Tombstone>, key: Key)
    ensures !Buried(tombs, key) ==> (key in BuryAll(m, tombs).tombstones <==> key in m.tombstones)
    ensures !Buried(tombs, key) && key in m.tombstones ==> BuryAll(m, tombs).tombstones[key] == m.tombstones[key]
  {
    if tombs != [] {
      var n := |tombs| - 1;
      BuryAt(m, tombs[..n], key);
      if Buried(tombs[..n], key) {
        var i :| 0 <= i < n && tombs[..n][i].contentKey == key;
        assert tombs[i].contentKey == key;
      }
      assert tombs[n].contentKey == key ==> Buried(tombs, key);
    }
  }

  lemma {:induction false} UnburyAt(m: Meta, tombs: seq<Tombstone>, key: Key)
    ensures key in UnburyAll(m, tombs).tombstones <==> key in m.tombstones && !Buried(tombs, key)
    ensures key in UnburyAll(m, tombs).tombstones ==> UnburyAll(m, tombs).tombstones[key] == m.tombstones[key]
  {
    if tombs != [] {
      var n := |tombs| - 1;
      UnburyAt(m, tombs[..n], key);
      if Buried(tombs[..n], key) {
        var i :| 0 <= i < n && tombs[..n][i].contentKey == key;
        assert tombs[i].contentKey == key;
      }
      if Buried(tombs, key) {
        var i :| 0 <= i < |tombs| && tombs[i].contentKey == key;
        assert i < n ==> tombs[..n][i].contentKey == key;
      }
      assert tombs[n].contentKey == key ==> Buried(tombs, key);
    }
  }

  /** The circumstances of a rename that is taken back. */
  ghost predicate RenameCase(m: Meta, oldName: Name, previous: seq<Record>, next: seq<Record>, tombs: seq<Tombstone>) {
    NameIndexOk(m) && RecordsFit(m, oldName, next) && TruePrevious(m, previous, next)
      && Replace(m, oldName, next, tombs).Ok?
  }

  lemma ReplacedMemory(m: Meta, oldName: Name, next: seq<Record>, tombs: seq<Tombstone>, id: MemoryId)
    requires Replace(m, oldName, next, tombs).Ok?
    ensures var s := Replace(m, oldName, next, tombs).value; var found := Find(next, id);
            if found.Some? then id in s.memories && s.memories[id] == found.value
            else (id in s.memories <==> id in m.memories) && (id in m.memories ==> s.memories[id] == m.memories[id])
  {
    var dropped := if HasName(next, oldName) then m else m.(names := m.names - {oldName});
    SetAllMemory(dropped, next, id);
    BuryKeepsDocuments(SetAll(dropped, next), tombs);
  }

  lemma ReplacedName(m: Meta, oldName: Name, next: seq<Record>, tombs: seq<Tombstone>, n: Name)
    requires Replace(m, oldName, next, tombs).Ok?
    ensures var s := Replace(m, oldName, next, tombs).value; var found := FindName(next, n);
            if found.Some? then n in s.names && s.names[n] == EntryOf(found.value)
            else (n in s.names <==> n in m.names && n != oldName) && (n in s.names ==> s.names[n] == m.names[n])
  {
    var dropped := if HasName(next, oldName) then m else m.(names := m.names - {oldName});
    SetAllName(dropped, next, n);
    BuryKeepsDocuments(SetAll(dropped, next), tombs);
    if FindName(next, n).None? && HasName(next, oldName) { assert n != oldName; }
  }

  lemma PreviousIs(m: Meta, oldName: Name, previous: seq<Record>, next: seq<Record>, tombs: seq<Tombstone>, i: nat)
    requires RenameCase(m, oldName, previous, next, tombs) && i < |next|
    ensures previous[i].id == next[i].id && previous[i].name in m.names
    ensures m.names[previous[i].name].memoryId == next[i].id
  {
    hide Replace, RecordsFit;
    assert MemoryOk(m, next[i].id);
  }

  lemma PreviousDistinct(m: Meta, oldName: Name, previous: seq<Record>, next: seq<Record>, tombs: seq<Tombstone>)
    requires RenameCase(m, oldName, previous, next, tombs)
    ensures DistinctIds(previous)
  {
    forall i | 0 <= i < |next|
      ensures previous[i].id == next[i].id
    {
      PreviousIs(m, oldName, previous, next, tombs, i);
    }
    hide Replace, NameIndexOk;
  }

  lemma PreviousIsFound(m: Meta, oldName: Name, previous: seq<Record>, next: seq<Record>, tombs: seq<Tombstone>, i: nat)
    requires RenameCase(m, oldName, previous, next, tombs) && i < |next|
    ensures previous[i].id == next[i].id && Find(previous, next[i].id) == Some(previous[i])
    ensures Find(next, next[i].id) == Some(next[i])
  {
    hide Replace, NameIndexOk;
    PreviousIs(m, oldName, previous, next, tombs, i);
    PreviousDistinct(m, oldName, previous, next, tombs);
    FindIs(next, next[i]);
    FindIs(previous, previous[i]);
  }

  lemma RenamedIsCurrent(m: Meta, oldName: Name, previous: seq<Record>, next: seq<Record>, tombs: seq<Tombstone>,
                         i: nat)
    requires RenameCase(m, oldName, previous, next, tombs) && i < |next|
    ensures StillCurrent(Replace(m, oldName, next, tombs).value, next[i])
  {
    FindIs(next, next[i]);
    FindNameIs(next, next[i]);
    ReplacedMemory(m, oldName, next, tombs, next[i].id);
    ReplacedName(m, oldName, next, tombs, next[i].name);
  }

  /** Nothing the rename wrote under an old name belongs to another memory. */
  lemma OldNamesAreFree(m: Meta, oldName: Name, previous: seq<Record>, next: seq<Record>, tombs: seq<Tombstone>, i: nat)
    requires RenameCase(m, oldName, previous, next, tombs) && i < |previous|
    ensures !NameTakenBy(Replace(m, oldName, next, tombs).value.names, previous[i])
  {
    var n := previous[i].name;
    assert MemoryOk(m, next[i].id);
    ReplacedName(m, oldName, next, tombs, n);
    var found := FindName(next, n);
    if found.Some? {
      var j :| 0 <= j < |next| && next[j] == found.value;
      assert !NameTakenBy(m.names, next[j]);
    }
  }

  lemma UndoneMemory(m: Meta, oldName: Name, previous: seq<Record>, next: seq<Record>, tombs: seq<Tombstone>,
                     id: MemoryId)
    requires RenameCase(m, oldName, previous, next, tombs)
    ensures var t := SetAll(DropCurrent(Replace(m, oldName, next, tombs).value, previous, next), previous);
            (id in t.memories <==> id in m.memories) && (id in m.memories ==> t.memories[id] == m.memories[id])
  {
    var s := Replace(m, oldName, next, tombs).value;
    ReplacedMemory(m, oldName, next, tombs, id);
    DropCurrentMemory(s, previous, next, id);
    SetAllMemory(DropCurrent(s, previous, next), previous, id);
    forall i | 0 <= i < |next|
      ensures previous[i].id == next[i].id && Find(previous, next[i].id) == Some(previous[i])
      ensures previous[i] == m.memories[next[i].id]
    {
      PreviousIsFound(m, oldName, previous, next, tombs, i);
    }
    var found := Find(next, id);
    if found.Some? {
      var i :| 0 <= i < |next| && next[i] == found.value;
      assert Find(previous, next[i].id) == Some(previous[i]);
    }
  }

  lemma UndoneName(m: Meta, oldName: Name, previous: seq<Record>, next: seq<Record>, tombs: seq<Tombstone>, n: Name)
    requires RenameCase(m, oldName, previous, next, tombs)
    ensures var t := SetAll(DropCurrent(Replace(m, oldName, next, tombs).value, previous, next), previous);
            (n in t.names <==> n in m.names) && (n in m.names ==> t.names[n] == m.names[n])
  {
    var s := Replace(m, oldName, next, tombs).value;
    ReplacedName(m, oldName, next, tombs, n);
    DropCurrentName(s, previous, next, n);
    SetAllName(DropCurrent(s, previous, next), previous, n);
    if FindName(previous, n).Some? {
      var i :| 0 <= i < |previous| && previous[i] == FindName(previous, n).value;
      assert MemoryOk(m, next[i].id);
    } else {
      NoPreviousName(m, oldName, previous, next, tombs, n);
    }
  }

  /**
    A name that no renamed memory had before: the undo drops it if the rename brought it in, and leaves it alone if
    not.
   */
  lemma NoPreviousName(m: Meta, oldName: Name, previous: seq<Record>, next: seq<Record>, tombs: seq<Tombstone>, n: Name)
    requires RenameCase(m, oldName, previous, next, tombs) && FindName(previous, n).None?
    ensures FindName(next, n).Some? ==> n !in m.names && exists i :: 0 <= i < |next| && GivesUp(previous, next[i], n)
    ensures FindName(next, n).None? ==> forall i :: 0 <= i < |next| ==> !GivesUp(previous, next[i], n)
    ensures n in m.names ==> n != oldName
  {
    assert NameOk(m, n);
    forall i | 0 <= i < |next| && next[i].name == n ensures n !in m.names && GivesUp(previous, next[i], n) {
      PreviousIsFound(m, oldName, previous, next, tombs, i);
      assert !NameTakenBy(m.names, next[i]);
      assert previous[i].name != n;
    }
    if FindName(next, n).Some? { var i :| 0 <= i < |next| && next[i] == FindName(next, n).value; }
    forall i | 0 <= i < |next|
      ensures n in m.names ==> next[i].id != m.names[n].memoryId
    {
      assert previous[i].name != n;
    }
  }

  /**
    A rename that is taken back with the true previous records restores memories and names, and drops its tombstones.
   */
  lemma RestoreUndoesReplace(m: Meta, oldName: Name, previous: seq<Record>, next: seq<Record>, tombs: seq<Tombstone>)
    requires RenameCase(m, oldName, previous, next, tombs)
    ensures var undone := RestoreAll(Replace(m, oldName, next, tombs).value, previous, next, tombs);
            && undone.Ok? && SameDocuments(m.(tombstones := undone.value.tombstones), undone.value)
            && (undone.value.tombstones == m.tombstones <==> forall key :: key in m.tombstones ==> !Buried(tombs, key))
  {
    hide StillCurrent, NameTakenBy, NameIndexOk, RecordsFit;
    var s := Replace(m, oldName, next, tombs).value;
    forall i | 0 <= i < |next|
      ensures StillCurrent(s, next[i])
    {
      RenamedIsCurrent(m, oldName, previous, next, tombs, i);
    }
    forall i | 0 <= i < |previous|
      ensures !NameTakenBy(s.names, previous[i])
    {
      OldNamesAreFree(m, oldName, previous, next, tombs, i);
    }
    UndoneDocuments(m, oldName, previous, next, tombs);
    UndoneTombstones(m, oldName, previous, next, tombs);
  }

  lemma UndoneDocuments(m: Meta, oldName: Name, previous: seq<Record>, next: seq<Record>, tombs: seq<Tombstone>)
    requires RenameCase(m, oldName, previous, next, tombs)
    ensures var s := Replace(m, oldName, next, tombs).value;
            var t := UnburyAll(SetAll(DropCurrent(s, previous, next), previous), tombs);
            SameDocuments(m.(tombstones := t.tombstones), t)
  {
    var s := Replace(m, oldName, next, tombs).value;
    var t := SetAll(DropCurrent(s, previous, next), previous);
    forall id
      ensures (id in t.memories <==> id in m.memories) && (id in m.memories ==> t.memories[id] == m.memories[id])
    {
      UndoneMemory(m, oldName, previous, next, tombs, id);
    }
    forall n
      ensures (n in t.names <==> n in m.names) && (n in m.names ==> t.names[n] == m.names[n])
    {
      UndoneName(m, oldName, previous, next, tombs, n);
    }
    assert t.memories == m.memories && t.names == m.names;
    UnburyKeepsDocuments(t, tombs);
    SetAllMemory(DropCurrent(s, previous, next), previous, 0);
    DropCurrentMemory(s, previous, next, 0);
    var dropped := if HasName(next, oldName) then m else m.(names := m.names - {oldName});
    SetAllMemory(dropped, next, 0);
    BuryKeepsDocuments(SetAll(dropped, next), tombs);
  }

  lemma UndoneTombstones(m: Meta, oldName: Name, previous: seq<Record>, next: seq<Record>, tombs: seq<Tombstone>)
    requires RenameCase(m, oldName, previous, next, tombs)
    ensures var s := Replace(m, oldName, next, tombs).value;
            var t := UnburyAll(SetAll(DropCurrent(s, previous, next), previous), tombs);
            t.tombstones == m.tombstones <==> forall key :: key in m.tombstones ==> !Buried(tombs, key)
  {
    var s := Replace(m, oldName, next, tombs).value;
    var stored := SetAll(DropCurrent(s, previous, next), previous);
    var t := UnburyAll(stored, tombs);
    SetAllMemory(DropCurrent(s, previous, next), previous, 0);
    DropCurrentMemory(s, previous, next, 0);
    var dropped := if HasName(next, oldName) then m else m.(names := m.names - {oldName});
    SetAllMemory(dropped, next, 0);
    forall key
      ensures (key in t.tombstones <==> key in m.tombstones && !Buried(tombs, key))
      ensures (key in t.tombstones ==> t.tombstones[key] == m.tombstones[key])
    {
      BuryAt(SetAll(dropped, next), tombs, key);
      UnburyAt(stored, tombs, key);
    }
    if forall key :: key in m.tombstones ==> !Buried(tombs, key) { assert t.tombstones == m.tombstones; }
  }

  /** If another writer changed or took away anything the rename wrote, taking it back throws and writes nothing. */
  lemma RestoreAllIsGuarded(m: Meta, previous: seq<Record>, current: seq<Record>, tombs: seq<Tombstone>)
    requires NameIndexOk(m)
    ensures RestoreAll(m, previous, current, tombs) == Err(RestoreConflict)
            <==> exists i :: 0 <= i < |current|
                   && !(current[i].id in m.memories && PointerOf(m.memories[current[i].id]) == PointerOf(current[i])
                                                     && m.memories[current[i].id].name == current[i].name)
  {
    forall i | 0 <= i < |current|
      ensures StillCurrent(m, current[i])
              <==> (current[i].id in m.memories && PointerOf(m.memories[current[i].id]) == PointerOf(current[i])
                                                && m.memories[current[i].id].name == current[i].name)
    {
      assert MemoryOk(m, current[i].id) && NameOk(m, current[i].name);
    }
  }
}
