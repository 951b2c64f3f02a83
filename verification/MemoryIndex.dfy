/**
  The derived index of the local service. Its tables are kept up to date step by step by save, update, forget and
  applied mutations; `reindex` computes them from the Markdown files alone. Both give the same tables, up to entity ids.
 */
module MemoryIndex {
  import opened Base
  import opened Markdown
  import opened KnowledgeGraph

  datatype Path = Path(project: Project, name: Name)

  datatype Row = Row(project: Project, name: Name, kind: Kind, description: int, bodyChars: nat, filePath: Path,
                     contentHash: Hash, status: Status,
                     lastReviewed: Option<Time>, nextReview: Option<Time>, archivedAt: Option<Time>,
                     archiveReason: Option<ArchiveReason>,
                     archivedBy: Option<int>, createdAt: Time, updatedAt: Time)

  /** What the full-text table holds for a memory, under the memory's rowid. */
  datatype Doc = Doc(name: Name, description: int, body: string)

  datatype Tables = Tables(rows: map<MemoryId, Row>, tags: set<(MemoryId, Name)>, links: set<(MemoryId, Name)>,
                           supersedes: set<(MemoryId, Name)>,
                           fts: map<MemoryId, Doc>, kg: Kg)

  /** Everything the tables hold for one memory. */
  datatype Share = Share(row: Option<Row>, tags: set<Name>, links: set<Name>, supersedes: set<Name>, fts: Option<Doc>,
                         kg: KgShare)

  const EMPTY := Share(None, {}, {}, {}, None, NO_SHARE)

  ghost function ListOf(pairs: set<(MemoryId, Name)>, id: MemoryId): set<Name> {
    set x | x in pairs && x.0 == id :: x.1
  }

  ghost function ShareOf(t: Tables, id: MemoryId): Share {
    Share(if id in t.rows then Some(t.rows[id]) else None, ListOf(t.tags, id), ListOf(t.links, id),
          ListOf(t.supersedes, id),
          if id in t.fts then Some(t.fts[id]) else None, KgOf(t.kg, id))
  }

  function RowFor(path: Path, m: Memory, text: Text): Row {
    Row(path.project, m.name, m.kind, m.description, |m.body|, path, Sha256(text),
        if m.status.Some? then m.status.value else Active,
        m.lastReviewed, m.nextReview, m.archivedAt, m.archiveReason, m.archivedBy, m.createdAt, m.updatedAt)
  }

  /** The share a memory should have. An archived memory has its row and nothing else. */
  ghost function Contribution(path: Path, m: Memory, text: Text): Share {
    if IsActive(m)
    then Share(Some(RowFor(path, m, text)), Elements(m.tags), Elements(m.links), Elements(m.supersedes),
               Some(Doc(m.name, m.description, m.body)),
               Declared(path.project, m.entities, m.triples))
    else EMPTY.(row := Some(RowFor(path, m, text)))
  }

  /** The tables accept an active memory without repeated list items or undeclared entities in its triples. */
  ghost predicate Insertable(m: Memory) {
    IsActive(m) ==>
      && Distinct(m.tags) && Distinct(m.links) && Distinct(m.supersedes)
      && TriplesDeclared(m.entities, m.triples)
  }

  // ----- The rebuild specification -----

  ghost predicate IdInFiles(files: map<Path, Text>, id: MemoryId) {
    exists path :: path in files && files[path].written.id == id
  }

  /** Files with one memory each, under its own name and with an id of its own. */
  ghost predicate OwnFiles(files: map<Path, Text>) {
    && (forall path :: path in files ==> files[path].written.name == path.name)
    && forall path, path' :: path in files && path' in files && files[path].written.id == files[path'].written.id
         ==> path == path'
  }

  /** The files the service writes: each is also acceptable to the tables. */
  ghost predicate GoodFiles(files: map<Path, Text>) {
    OwnFiles(files) && forall path :: path in files ==> Insertable(Parse(files[path]))
  }

  /** The files that a rebuild does not skip. */
  ghost function Accepted(files: map<Path, Text>): map<Path, Text> {
    map path | path in files && Insertable(Parse(files[path])) :: files[path]
  }

  ghost predicate UniqueNames(t: Tables) {
    forall a, b ::
      a in t.rows && b in t.rows && t.rows[a].project == t.rows[b].project && t.rows[a].name == t.rows[b].name ==>
        a == b
  }

  ghost predicate TablesOk(t: Tables) {
    Linked(t.kg) && NoOrphans(t.kg) && UniqueNames(t)
  }

  /** The tables are the ones computed from the files: each file's memory has its share, and nothing else is there. */
  ghost predicate Consistent(t: Tables, files: map<Path, Text>) {
    && TablesOk(t)
    && (forall path :: path in files
          ==> ShareOf(t, files[path].written.id) == Contribution(path, Parse(files[path]), files[path]))
    && forall id :: !IdInFiles(files, id) ==> ShareOf(t, id) == EMPTY
  }

  /** The same tables, except that entities may have other ids. */
  ghost predicate SameUpToEntityIds(t: Tables, u: Tables) {
    && t.rows == u.rows && t.tags == u.tags && t.links == u.links && t.supersedes == u.supersedes && t.fts == u.fts
    && (forall id :: KgOf(t.kg, id) == KgOf(u.kg, id))
    && (forall e :: e in t.kg.entities ==> exists f :: f in u.kg.entities && u.kg.entities[f] == t.kg.entities[e])
    && (forall f :: f in u.kg.entities ==> exists e :: e in t.kg.entities && t.kg.entities[e] == u.kg.entities[f])
  }

  lemma SameLists(a: set<(MemoryId, Name)>, b: set<(MemoryId, Name)>)
    requires forall id :: ListOf(a, id) == ListOf(b, id)
    ensures a == b
  {
    forall x | x in a ensures x in b { assert x.1 in ListOf(a, x.0); assert x.1 in ListOf(b, x.0); }
    forall x | x in b ensures x in a { assert x.1 in ListOf(b, x.0); assert x.1 in ListOf(a, x.0); }
  }

  /** The files determine the tables: so an index kept up to date step by step equals the rebuilt one. */
  lemma FilesDetermineTables(t: Tables, u: Tables, files: map<Path, Text>)
    requires Consistent(t, files) && Consistent(u, files)
    ensures SameUpToEntityIds(t, u)
  {
    forall id ensures ShareOf(t, id) == ShareOf(u, id) {
      if IdInFiles(files, id) { var path :| path in files && files[path].written.id == id; }
    }
    SharesDetermineTables(t, u);
  }

  lemma SharesDetermineTables(t: Tables, u: Tables)
    requires TablesOk(t) && TablesOk(u) && forall id :: ShareOf(t, id) == ShareOf(u, id)
    ensures SameUpToEntityIds(t, u)
  {
    forall id
      ensures ListOf(t.tags, id) == ListOf(u.tags, id) && ListOf(t.links, id) == ListOf(u.links, id)
      ensures ListOf(t.supersedes, id) == ListOf(u.supersedes, id)
    {
      assert ShareOf(t, id) == ShareOf(u, id);
    }
    forall id ensures KgOf(t.kg, id) == KgOf(u.kg, id) { assert ShareOf(t, id) == ShareOf(u, id); }
    forall id ensures id in t.rows <==> id in u.rows { assert ShareOf(t, id) == ShareOf(u, id); }
    forall id | id in t.rows ensures t.rows[id] == u.rows[id] { assert ShareOf(t, id) == ShareOf(u, id); }
    assert t.rows == u.rows;
    forall id ensures id in t.fts <==> id in u.fts { assert ShareOf(t, id) == ShareOf(u, id); }
    forall id | id in t.fts ensures t.fts[id] == u.fts[id] { assert ShareOf(t, id) == ShareOf(u, id); }
    assert t.fts == u.fts;
    SameLists(t.tags, u.tags);
    SameLists(t.links, u.links);
    SameLists(t.supersedes, u.supersedes);
    forall e | e in t.kg.entities
      ensures exists f :: f in u.kg.entities && u.kg.entities[f] == t.kg.entities[e]
    {
      SameSharesSameEntities(t.kg, u.kg, e);
    }
    forall f | f in u.kg.entities
      ensures exists e :: e in t.kg.entities && t.kg.entities[e] == u.kg.entities[f]
    {
      SameSharesSameEntities(u.kg, t.kg, f);
    }
  }

  // ----- Changing one memory's share -----

  ghost predicate OtherSharesKept(t: Tables, u: Tables, id: MemoryId) {
    forall other :: other != id ==> ShareOf(u, other) == ShareOf(t, other)
  }

  lemma OtherSharesKeptTwice(t: Tables, u: Tables, v: Tables, id: MemoryId)
    requires OtherSharesKept(t, u, id) && OtherSharesKept(u, v, id)
    ensures OtherSharesKept(t, v, id)
  {
    forall other | other != id
      ensures ShareOf(v, other) == ShareOf(t, other)
    {
      assert ShareOf(u, other) == ShareOf(t, other);
    }
  }

  lemma MembersInProject(kg: Kg, id: MemoryId, project: Project)
    requires Linked(kg) && forall ent :: ent in KgOf(kg, id).members ==> ent.project == project
    ensures InProject(kg, id, project)
  {
    forall x | x in kg.memberships && x.0 == id && x.1 in kg.entities ensures kg.entities[x.1].project == project {
      assert kg.entities[x.1] in MembersOf(kg, id);
    }
  }

  /** Another memory of the project has the name: the unique index refuses the row. */
  predicate NameClash(t: Tables, id: MemoryId, project: Project, name: Name) {
    exists other :: other in t.rows && other != id && t.rows[other].project == project && t.rows[other].name == name
  }

  ghost predicate ListKept(pairs: set<(MemoryId, Name)>, pairs': set<(MemoryId, Name)>, id: MemoryId) {
    forall other :: other != id ==> ListOf(pairs', other) == ListOf(pairs, other)
  }

  /** One of the loops of `insertCollections`. The primary key refuses a repeated pair. */
  method InsertList(pairs: set<(MemoryId, Name)>, id: MemoryId, list: seq<Name>)
    returns (pairs': set<(MemoryId, Name)>, thrown: bool)
    requires ListOf(pairs, id) == {}
    ensures thrown <==> !Distinct(list)
    ensures !thrown ==> ListOf(pairs', id) == Elements(list) && ListKept(pairs, pairs', id)
  {
    pairs', thrown := pairs, false;
    for i := 0 to |list|
      invariant Distinct(list[..i]) && ListOf(pairs', id) == Elements(list[..i]) && ListKept(pairs, pairs', id)
    {
      if (id, list[i]) in pairs' {
        RepeatedItem(list, i, pairs', id);
        return pairs', true;
      }
      AddedItem(list, i, pairs', id);
      assert ListKept(pairs, pairs' + {(id, list[i])}, id) by {
        forall other | other != id
          ensures ListOf(pairs' + {(id, list[i])}, other) == ListOf(pairs, other)
        {
          assert ListOf(pairs', other) == ListOf(pairs, other);
        }
      }
      pairs' := pairs' + {(id, list[i])};
    }
    assert list[..|list|] == list;
  }

  lemma RepeatedItem(list: seq<Name>, i: nat, pairs: set<(MemoryId, Name)>, id: MemoryId)
    requires i < |list| && ListOf(pairs, id) == Elements(list[..i]) && (id, list[i]) in pairs
    ensures !Distinct(list)
  {
    assert list[i] in ListOf(pairs, id);
    var j :| 0 <= j < i && list[..i][j] == list[i];
    assert list[j] == list[i];
  }

  lemma AddedItem(list: seq<Name>, i: nat, pairs: set<(MemoryId, Name)>, id: MemoryId)
    requires i < |list| && ListOf(pairs, id) == Elements(list[..i]) && (id, list[i]) !in pairs && Distinct(list[..i])
    ensures Distinct(list[..i + 1]) && ListOf(pairs + {(id, list[i])}, id) == Elements(list[..i + 1])
  {
    var more := pairs + {(id, list[i])};
    assert (id, list[i]) in more;
    assert list[..i + 1] == list[..i] + [list[i]];
    assert ListOf(more, id) == ListOf(pairs, id) + {list[i]};
    forall x | x in pairs && x.0 == id ensures x.1 != list[i] { assert x == (id, x.1); }
  }

  /** `DELETE FROM ... WHERE memory_id = ?` */
  function Cleared(pairs: set<(MemoryId, Name)>, id: MemoryId): set<(MemoryId, Name)> {
    set x | x in pairs && x.0 != id
  }

  lemma ClearedIsEmpty(pairs: set<(MemoryId, Name)>, id: MemoryId)
    ensures ListOf(Cleared(pairs, id), id) == {} && ListKept(pairs, Cleared(pairs, id), id)
  {
    forall other | other != id ensures ListOf(Cleared(pairs, id), other) == ListOf(pairs, other) {}
  }

  /** The row is all that is left of the memory. */
  ghost predicate OnlyRow(t: Tables, id: MemoryId) {
    id in t.rows && ShareOf(t, id) == EMPTY.(row := Some(t.rows[id]))
  }

  /** The insertions for an active memory whose row is there: collections, full text, knowledge graph. */
  method InsertActive(t: Tables, project: Project, m: Memory) returns (u: Tables, thrown: bool)
    requires TablesOk(t) && OnlyRow(t, m.id) && IsActive(m)
    ensures thrown <==> !Insertable(m)
    ensures !thrown ==> TablesOk(u) && OtherSharesKept(t, u, m.id) && u.rows == t.rows
    ensures !thrown
            ==> ShareOf(u, m.id)
                == Share(Some(t.rows[m.id]), Elements(m.tags), Elements(m.links), Elements(m.supersedes),
                         Some(Doc(m.name, m.description, m.body)), Declared(project, m.entities, m.triples))
  {
    hide Linked, NoOrphans, KgOf, Declared, TriplesDeclared, Distinct;
    u := t;
    assert ShareOf(t, m.id).tags == {} && ShareOf(t, m.id).links == {} && ShareOf(t, m.id).supersedes == {}
      && ShareOf(t, m.id).kg == NO_SHARE;
    var tags, links, supersedes, kg;
    tags, thrown := InsertList(t.tags, m.id, m.tags);
    if thrown { return; }
    links, thrown := InsertList(t.links, m.id, m.links);
    if thrown { return; }
    supersedes, thrown := InsertList(t.supersedes, m.id, m.supersedes);
    if thrown { return; }
    MembersInProject(t.kg, m.id, project);
    kg, thrown := ApplyMemoryKg(t.kg, project, m.id, m.entities, m.triples, false);
    if thrown { return; }
    u := Tables(t.rows, tags, links, supersedes, t.fts[m.id := Doc(m.name, m.description, m.body)], kg);
    ListsKeepShares(t, u, m.id);
  }

  lemma ListsKeepShares(t: Tables, u: Tables, id: MemoryId)
    requires ListKept(t.tags, u.tags, id) && ListKept(t.links, u.links, id) && ListKept(t.supersedes, u.supersedes, id)
    requires OthersKept(t.kg, u.kg, id)
    requires forall other :: other != id
               ==> (other in t.rows <==> other in u.rows) && (other in t.rows ==> t.rows[other] == u.rows[other])
    requires forall other :: other != id
               ==> (other in t.fts <==> other in u.fts) && (other in t.fts ==> t.fts[other] == u.fts[other])
    ensures OtherSharesKept(t, u, id)
  {
    hide KgOf, ListOf;
  }

  /** All of a memory's rows but the one in `memories` are deleted. */
  method DeleteShare(t: Tables, project: Project, id: MemoryId) returns (u: Tables)
    requires TablesOk(t) && InProject(t.kg, id, project)
    ensures TablesOk(u) && OtherSharesKept(t, u, id) && u.rows == t.rows
    ensures ShareOf(u, id) == EMPTY.(row := ShareOf(t, id).row)
  {
    hide Linked, NoOrphans, KgOf, InProject;
    var kg := RemoveMemoryKg(t.kg, project, id);
    ClearedIsEmpty(t.tags, id);
    ClearedIsEmpty(t.links, id);
    ClearedIsEmpty(t.supersedes, id);
    u := Tables(t.rows, Cleared(t.tags, id), Cleared(t.links, id), Cleared(t.supersedes, id), t.fts - {id}, kg);
    assert OthersKept(t.kg, kg, id);
    ListsKeepShares(t, u, id);
  }

  lemma RowOnly(t: Tables, id: MemoryId, row: Row)
    requires TablesOk(t) && !NameClash(t, id, row.project, row.name)
    ensures var u := t.(rows := t.rows[id := row]);
            TablesOk(u) && OtherSharesKept(t, u, id) && ShareOf(u, id) == ShareOf(t, id).(row := Some(row))
  {
    hide Linked, NoOrphans, KgOf;
  }

  /** The members of the memory, if it has any, are entities of the project: it has not moved between projects. */
  ghost predicate AtHome(t: Tables, id: MemoryId, project: Project) {
    InProject(t.kg, id, project)
  }

  /** `upsertMemory`, and what an applied mutation does with each of its memories. */
  method Upsert(t: Tables, path: Path, m: Memory, text: Text) returns (u: Tables, thrown: bool)
    requires TablesOk(t) && AtHome(t, m.id, path.project) && (m.id !in t.rows ==> ShareOf(t, m.id) == EMPTY)
    ensures thrown <==> NameClash(t, m.id, path.project, m.name) || !Insertable(m)
    ensures !thrown ==> TablesOk(u) && OtherSharesKept(t, u, m.id) && ShareOf(u, m.id) == Contribution(path, m, text)
  {
    hide Linked, NoOrphans, KgOf, InProject, Insertable;
    u := t;
    if NameClash(t, m.id, path.project, m.name) { return t, true; }
    if m.id in t.rows { u := DeleteShare(t, path.project, m.id); }
    assert OtherSharesKept(t, u, m.id) && !NameClash(u, m.id, path.project, m.name);
    RowOnly(u, m.id, RowFor(path, m, text));
    ghost var cleared := u;
    u := u.(rows := u.rows[m.id := RowFor(path, m, text)]);
    OtherSharesKeptTwice(t, cleared, u, m.id);
    thrown := false;
    if IsActive(m) {
      ghost var rowed := u;
      u, thrown := InsertActive(u, path.project, m);
      if !thrown { OtherSharesKeptTwice(t, rowed, u, m.id); }
    } else {
      assert Insertable(m) by { ArchivedIsInsertable(m); }
    }
  }

  lemma ArchivedIsInsertable(m: Memory)
    requires !IsActive(m)
    ensures Insertable(m)
  {
  }

  // ----- Files and tables together -----

  /**
    Writing one memory's text and giving it its share keeps the tables those of the files, exactly if the share is the
    one the text reads back to.
   */
  lemma WriteIsConsistentIff(t: Tables, files: map<Path, Text>, u: Tables, path: Path, m: Memory, text: Text)
    requires Consistent(t, files) && GoodFiles(files) && TablesOk(u) && OtherSharesKept(t, u, m.id)
    requires ShareOf(u, m.id) == Contribution(path, m, text)
    requires text.written.id == m.id && text.written.name == path.name && Insertable(Parse(text))
    requires if path in files then files[path].written.id == m.id else !IdInFiles(files, m.id)
    ensures GoodFiles(files[path := text])
    ensures Consistent(u, files[path := text]) <==> Contribution(path, m, text) == Contribution(path, Parse(text), text)
  {
    hide TablesOk, ShareOf, Contribution, Insertable;
    var files' := files[path := text];
    forall p | p in files && p != path ensures files[p].written.id != m.id {}
    forall p | p in files' && p != path
      ensures ShareOf(u, files'[p].written.id) == Contribution(p, Parse(files'[p]), files'[p])
    {
      assert ShareOf(t, files[p].written.id) == Contribution(p, Parse(files[p]), files[p]);
    }
    forall id | !IdInFiles(files', id) ensures ShareOf(u, id) == EMPTY {
      assert id != m.id by { assert files'[path].written.id == m.id; }
      forall p | p in files ensures files[p].written.id != id { assert p != path ==> files'[p].written.id != id; }
      assert !IdInFiles(files, id);
    }
    assert files'[path] == text;
  }

  /**
    What is stored for a memory differs from what its text reads back to exactly in the line breaks around the body.
   */
  lemma ContributionReadsBackIffNormal(path: Path, m: Memory)
    requires m.status.Some?
    ensures Contribution(path, m, Serialize(m)) == Contribution(path, Parse(Serialize(m)), Serialize(m)) <==> Normal(m)
  {
    ParseSerialize(m);
    StripShortens(m.body);
    var text := Serialize(m);
    assert RowFor(path, m, text).bodyChars == |m.body| && RowFor(path, Parse(text), text).bodyChars == |Strip(m.body)|;
  }

  lemma SerializedIsInsertable(m: Memory)
    requires Insertable(m)
    ensures Insertable(Parse(Serialize(m))) && Serialize(m).written.id == m.id && Serialize(m).written.name == m.name
  {
  }

  /** A row belongs to the memory of its own file. */
  lemma RowHasFile(t: Tables, files: map<Path, Text>, id: MemoryId)
    requires Consistent(t, files) && id in t.rows
    ensures var path := t.rows[id].filePath;
            path in files && files[path].written.id == id && t.rows[id] == RowFor(path, Parse(files[path]), files[path])
    ensures t.rows[id].project == t.rows[id].filePath.project
    ensures ShareOf(t, id)
            == Contribution(t.rows[id].filePath, Parse(files[t.rows[id].filePath]), files[t.rows[id].filePath])
  {
    assert ShareOf(t, id).row == Some(t.rows[id]);
    assert IdInFiles(files, id);
    var path :| path in files && files[path].written.id == id;
    assert ShareOf(t, files[path].written.id) == Contribution(path, Parse(files[path]), files[path]);
  }

  lemma FileHasRow(t: Tables, files: map<Path, Text>, path: Path)
    requires Consistent(t, files) && path in files
    ensures var id := files[path].written.id;
            id in t.rows && t.rows[id] == RowFor(path, Parse(files[path]), files[path])
  {
    assert ShareOf(t, files[path].written.id) == Contribution(path, Parse(files[path]), files[path]);
  }

  /** A memory is a member only of entities of its own project. */
  lemma ConsistentAtHome(t: Tables, files: map<Path, Text>, id: MemoryId, project: Project)
    requires Consistent(t, files) && (id in t.rows ==> t.rows[id].project == project)
    ensures AtHome(t, id, project) && (id !in t.rows ==> ShareOf(t, id) == EMPTY)
  {
    if id in t.rows {
      RowHasFile(t, files, id);
    } else {
      forall path | path in files ensures files[path].written.id != id { FileHasRow(t, files, path); }
      assert !IdInFiles(files, id);
    }
    assert forall ent :: ent in ShareOf(t, id).kg.members ==> ent.project == project;
    MembersInProject(t.kg, id, project);
  }

  /** A name is free in the tables exactly if it has no file. */
  lemma FreeNameIffNoFile(t: Tables, files: map<Path, Text>, id: MemoryId, path: Path)
    requires Consistent(t, files) && GoodFiles(files)
    ensures NameClash(t, id, path.project, path.name) <==> path in files && files[path].written.id != id
  {
    if path in files { FileHasRow(t, files, path); }
    forall other | other in t.rows && other != id && t.rows[other].project == path.project
      && t.rows[other].name == path.name
      ensures path in files && files[path].written.id == other
    {
      RowHasFile(t, files, other);
      assert t.rows[other].filePath.name == path.name;
    }
  }

  datatype Ending = Done | NotFound | NameConflict | Failed

  /** An edit leaves alone who the memory is, and an update makes the status explicit. */
  ghost predicate Edits(edit: Memory -> Memory) {
    forall c :: edit(c).id == c.id && edit(c).name == c.name && edit(c).kind == c.kind
      && edit(c).createdAt == c.createdAt && edit(c).status.Some?
  }

  /** The edit would leave a memory of a kind that bears entities without any. */
  ghost predicate EmptiesEntities(current: Memory, edit: Memory -> Memory) {
    && (current.kind == User || current.kind == Feedback || current.kind == Kind.Project)
    && |current.entities| > 0 && |edit(current).entities| == 0
  }

  class LocalMemoryIndex {
    var tables: Tables
    var files: map<Path, Text>

    constructor ()
      ensures Valid() && files == map[]
    {
      tables, files := Tables(map[], {}, {}, {}, map[], Kg(map[], {}, {}, {}, 0)), map[];
      new;
      forall id ensures ShareOf(tables, id) == EMPTY {}
    }

    /** The tables are those of the files. */
    ghost predicate Valid()
      reads this
    {
      GoodFiles(files) && Consistent(tables, files)
    }

    /** `save`: the file, then one transaction; if it throws the file goes again. */
    method Save(project: Project, m: Memory) returns (ending: Ending)
      requires Valid() && !IdInFiles(files, m.id) && m.status == Some(Active)
      modifies this
      ensures ending == NameConflict <==> Path(project, m.name) in old(files)
      ensures ending == Failed <==> Path(project, m.name) !in old(files) && !Insertable(m)
      ensures ending != Done ==> tables == old(tables) && files == old(files)
      ensures ending == Done
              ==> files == old(files)[Path(project, m.name) := Serialize(m)] && GoodFiles(files)
                  && (Valid() <==> Normal(m))
    {
      hide Consistent, GoodFiles, NameClash, Insertable;
      var path := Path(project, m.name);
      FreeNameIffNoFile(tables, files, m.id, path);
      NewIdHasNoRow(tables, files, m.id);
      if NameClash(tables, m.id, project, m.name) { return NameConflict; }
      ghost var before := files;
      files := files[path := Serialize(m)];
      var saved, thrown := StoreMemory(tables, before, path, m);
      if thrown {
        files := files - {path};
        assert files == before;
        return Failed;
      }
      tables := saved;
      ending := Done;
    }

    /** `forget`: the file goes first, then one transaction deletes everything the tables hold for the memory. */
    method Forget(project: Project, id: MemoryId) returns (ending: Ending)
      requires Valid()
      modifies this
      ensures ending == NotFound <==> id !in old(tables).rows || old(tables).rows[id].project != project
      ensures ending == NotFound ==> tables == old(tables) && files == old(files)
      ensures ending == Done || ending == NotFound
      ensures Valid()
      ensures (ending == Done ==> files == old(files) - {old(tables).rows[id].filePath} && !IdInFiles(files, id))
    {
      if id !in tables.rows || tables.rows[id].project != project { return NotFound; }
      var path := tables.rows[id].filePath;
      RowHasFile(tables, files, id);
      ConsistentAtHome(tables, files, id, project);
      files := files - {path};
      ghost var before := tables;
      tables := DeleteShare(tables, project, id);
      ghost var cleared := tables;
      tables := tables.(rows := tables.rows - {id});
      RowGone(cleared, tables, id);
      OtherSharesKeptTwice(before, cleared, tables, id);
      ForgetIsConsistent(before, old(files), tables, path);
      ending := Done;
    }

    /**
      The files and index of an applied mutation: all of its memories, or, if the transaction throws, none. It throws
      exactly if the tables refuse one of them, and the tables stay those of the files exactly if all of them are
      normal.
     */
    method ApplyMemories(project: Project, after: seq<Memory>) returns (ending: Ending)
      requires Valid() && Placeable(tables, files, project, after)
      modifies this
      ensures ending == Done || ending == Failed
      ensures ending == Done <==> forall i :: 0 <= i < |after| ==> Insertable(after[i])
      ensures ending == Failed ==> tables == old(tables) && files == old(files)
      ensures ending == Done ==> files == Written(old(files), project, after) && GoodFiles(files)
      ensures ending == Done ==> (Valid() <==> forall i :: 0 <= i < |after| ==> Normal(after[i]))
    {
      hide Consistent, GoodFiles, Placed, IdInFiles, Normal, Insertable, AsGiven, Settled;
      var oldTables, oldFiles := tables, files;
      StoredNothing(tables, files, project, after);
      assert after[0..] == after;
      for i := 0 to |after|
        invariant Stored(oldTables, oldFiles, tables, files, project, after, i)
        invariant Placeable(tables, files, project, after[i..])
        invariant forall j :: 0 <= j < i ==> Insertable(after[j])
      {
        var m := after[i];
        assert after[i..][0] == m;
        var stored, thrown := StoreSettled(tables, files, project, m);
        if thrown {
          tables, files := oldTables, oldFiles;
          return Failed;
        }
        PlaceableAfter(tables, stored, files, project, after[i..]);
        StoredMore(oldTables, oldFiles, tables, files, project, after, i, stored);
        tables, files := stored, files[Path(project, m.name) := Serialize(m)];
        assert after[i..][1..] == after[i + 1..];
      }
      StoredIsConsistentIff(oldTables, oldFiles, tables, files, project, after);
      assert after[..|after|] == after;
      ending := Done;
    }

    /**
      `reindex` of everything: the tables are emptied and every file is read and inserted, in the order of the directory
      listing; one that the tables refuse is skipped. Whatever the tables held before, they become those of the files
      not skipped; an index that was kept up to date comes out as it was. No row is left unseen, so the deletions that
      follow find none.
     */
    method Reindex(listing: seq<Path>)
      requires OwnFiles(files) && Distinct(listing) && forall path :: path in files <==> path in listing
      modifies this`tables
      ensures Consistent(tables, Accepted(files)) && GoodFiles(Accepted(files))
      ensures Valid() <==> GoodFiles(files)
      ensures forall id :: id in tables.rows ==> IdInFiles(files, id)
      ensures old(Valid()) ==> SameUpToEntityIds(old(tables), tables)
    {
      hide Consistent, GoodFiles, NameClash, Distinct, Insertable;
      tables := Tables(map[], {}, {}, {}, map[], Kg(map[], {}, {}, {}, tables.kg.next));
      EmptyIsConsistent(tables);
      assert Accepted(Read(files, listing[..0])) == map[];
      for i := 0 to |listing|
        invariant Consistent(tables, Accepted(Read(files, listing[..i])))
        invariant GoodFiles(Accepted(Read(files, listing[..i])))
      {
        NextFile(files, listing, i);
        tables := ReadOne(tables, Accepted(Read(files, listing[..i])), listing[i], files[listing[i]]);
      }
      assert Read(files, listing[..|listing|]) == files by { assert listing[..|listing|] == listing; }
      forall id | id in tables.rows ensures IdInFiles(files, id) { RowHasFile(tables, Accepted(files), id); }
      AcceptedIsAllIff(files);
      if old(Valid()) { FilesDetermineTables(old(tables), tables, files); }
    }

    /**
      `update`: only the columns an update can change are written; if the transaction throws the old text is written
      back.
     */
    method Update(project: Project, id: MemoryId, edit: Memory -> Memory) returns (ending: Ending)
      requires Valid() && Edits(edit)
      modifies this
      ensures ending == NotFound <==> id !in old(tables).rows || old(tables).rows[id].project != project
      ensures ending in {Done, NotFound, Failed}
      ensures ending == Failed
              <==> && id in old(tables).rows && old(tables).rows[id].project == project
                   && var path := old(tables).rows[id].filePath;
                      && path in old(files)
                      && (EmptiesEntities(Parse(old(files)[path]), edit) || !Insertable(edit(Parse(old(files)[path]))))
      ensures ending != Done ==> tables == old(tables) && files == old(files)
      ensures ending == Done ==> EditedFile(old(tables), old(files), id, edit, files)
      ensures ending == Done
              ==> GoodFiles(files) && (Valid() <==> Normal(edit(Parse(old(files)[old(tables).rows[id].filePath]))))
    {
      hide Linked, NoOrphans, KgOf, ShareOf, Contribution, Insertable, OtherSharesKept;
      if id !in tables.rows || tables.rows[id].project != project { return NotFound; }
      var row := tables.rows[id];
      RowHasFile(tables, files, id);
      var path := row.filePath;
      var current := Parse(files[path]);
      var m := edit(current);
      if current.kind in {User, Feedback, Kind.Project} && current.entities != [] && m.entities == [] { return Failed; }
      var oldText, text := files[path], Serialize(m);
      files := files[path := text];
      ConsistentAtHome(tables, old(files), id, project);
      var updated, thrown := UpdatedTables(tables, row, m, text);
      if thrown {
        files := files[path := oldText];
        assert files == old(files);
        return Failed;
      }
      SerializedIsInsertable(m);
      ContributionReadsBackIffNormal(path, m);
      WriteIsConsistentIff(tables, old(files), updated, path, m, text);
      tables := updated;
      ending := Done;
    }
  }

  /** The transaction that stores one memory whose place in the files is its own. */
  method StoreMemory(t: Tables, ghost files: map<Path, Text>, path: Path, m: Memory) returns (u: Tables, thrown: bool)
    requires Consistent(t, files) && GoodFiles(files) && m.status.Some? && m.name == path.name
    requires (m.id in t.rows ==> t.rows[m.id].project == path.project)
    requires if path in files then files[path].written.id == m.id else !IdInFiles(files, m.id)
    ensures thrown <==> !Insertable(m)
    ensures !thrown
            ==> OtherSharesKept(t, u, m.id) && GoodFiles(files[path := Serialize(m)])
                && (Consistent(u, files[path := Serialize(m)]) <==> Normal(m))
  {
    hide Linked, NoOrphans, ShareOf, Contribution, Insertable, OtherSharesKept;
    ConsistentAtHome(t, files, m.id, path.project);
    FreeNameIffNoFile(t, files, m.id, path);
    u, thrown := Upsert(t, path, m, Serialize(m));
    if !thrown {
      SerializedIsInsertable(m);
      ContributionReadsBackIffNormal(path, m);
      WriteIsConsistentIff(t, files, u, path, m, Serialize(m));
    }
  }

  lemma NewIdHasNoRow(t: Tables, files: map<Path, Text>, id: MemoryId)
    requires Consistent(t, files) && !IdInFiles(files, id)
    ensures id !in t.rows
  {
    assert ShareOf(t, id) == EMPTY;
  }

  lemma PlacedFits(t: Tables, files: map<Path, Text>, project: Project, m: Memory)
    requires Consistent(t, files) && GoodFiles(files) && Placed(t, files, project, m)
    ensures var path := Path(project, m.name);
            && m.status.Some? && (m.id in t.rows ==> t.rows[m.id].project == project)
            && (if path in files then files[path].written.id == m.id else !IdInFiles(files, m.id))
  {
    if m.id in t.rows { RowHasFile(t, files, m.id); }
  }

  /**
    One file of a rebuild: none of the files before it has its id or its name, so its memory is inserted unless the
    tables refuse it.
   */
  method ReadOne(t: Tables, ghost sofar: map<Path, Text>, path: Path, text: Text) returns (u: Tables)
    requires Consistent(t, sofar) && GoodFiles(sofar) && path !in sofar && !IdInFiles(sofar, text.written.id)
    requires text.written.name == path.name
    ensures var more := if Insertable(Parse(text)) then sofar[path := text] else sofar;
            Consistent(u, more) && GoodFiles(more)
  {
    hide Linked, NoOrphans, ShareOf, Contribution, Insertable;
    var m := Parse(text);
    ReadAtHome(t, sofar, m.id, path.project);
    FreeNameIffNoFile(t, sofar, m.id, path);
    var stored, thrown := Upsert(t, path, m, text);
    if thrown { return t; }
    WriteIsConsistentIff(t, sofar, stored, path, m, text);
    u := stored;
  }

  lemma ReadAtHome(t: Tables, sofar: map<Path, Text>, id: MemoryId, project: Project)
    requires Consistent(t, sofar) && !IdInFiles(sofar, id)
    ensures id !in t.rows && AtHome(t, id, project) && ShareOf(t, id) == EMPTY
  {
    assert ShareOf(t, id) == EMPTY;
    ConsistentAtHome(t, sofar, id, project);
  }

  /** The columns `update` writes. */
  function UpdatedRow(row: Row, m: Memory, text: Text): Row {
    row.(description := m.description, bodyChars := |m.body|, contentHash := Sha256(text),
         status := if m.status.Some? then m.status.value else Active,
         lastReviewed := m.lastReviewed, nextReview := m.nextReview,
         archivedAt := m.archivedAt, archiveReason := m.archiveReason, archivedBy := m.archivedBy,
         updatedAt := m.updatedAt)
  }

  /** The transaction of `update`. The columns it leaves alone are the ones an edit cannot change. */
  method UpdatedTables(t: Tables, row: Row, m: Memory, text: Text) returns (u: Tables, thrown: bool)
    requires TablesOk(t) && m.id in t.rows && t.rows[m.id] == row && AtHome(t, m.id, row.project)
    requires row.project == row.filePath.project
    requires UpdatedRow(row, m, text) == RowFor(row.filePath, m, text)
    ensures thrown <==> !Insertable(m)
    ensures !thrown
            ==> TablesOk(u) && OtherSharesKept(t, u, m.id) && ShareOf(u, m.id) == Contribution(row.filePath, m, text)
  {
    hide Linked, NoOrphans, KgOf, InProject, Insertable;
    u := DeleteShare(t, row.project, m.id);
    ghost var cleared := u;
    RowOnly(u, m.id, UpdatedRow(row, m, text));
    u := u.(rows := u.rows[m.id := UpdatedRow(row, m, text)]);
    OtherSharesKeptTwice(t, cleared, u, m.id);
    thrown := false;
    if IsActive(m) {
      ghost var rowed := u;
      u, thrown := InsertActive(u, row.project, m);
      if !thrown { OtherSharesKeptTwice(t, rowed, u, m.id); }
    } else {
      assert Insertable(m) by { ArchivedIsInsertable(m); }
    }
  }

  /** The file of the updated memory holds the edited text, and no other file has changed. */
  ghost predicate EditedFile(t: Tables, files: map<Path, Text>, id: MemoryId, edit: Memory -> Memory, files': map<Path,
                             Text>) {
    id in t.rows && t.rows[id].filePath in files
      && files' == files[t.rows[id].filePath := Serialize(edit(Parse(files[t.rows[id].filePath])))]
  }

  lemma RowGone(t: Tables, u: Tables, id: MemoryId)
    requires TablesOk(t) && u == t.(rows := t.rows - {id}) && ShareOf(t, id) == EMPTY.(row := ShareOf(t, id).row)
    ensures TablesOk(u) && OtherSharesKept(t, u, id) && ShareOf(u, id) == EMPTY
  {
    hide Linked, NoOrphans, KgOf;
  }

  lemma ForgetIsConsistent(t: Tables, files: map<Path, Text>, u: Tables, path: Path)
    requires Consistent(t, files) && GoodFiles(files) && path in files
    requires TablesOk(u) && OtherSharesKept(t, u, files[path].written.id) && ShareOf(u, files[path].written.id) == EMPTY
    ensures GoodFiles(files - {path}) && Consistent(u, files - {path})
    ensures !IdInFiles(files - {path}, files[path].written.id)
  {
    hide TablesOk, ShareOf, Contribution, Insertable;
    var files', id := files - {path}, files[path].written.id;
    forall p | p in files' ensures ShareOf(u, files'[p].written.id) == Contribution(p, Parse(files'[p]), files'[p]) {
      assert ShareOf(t, files[p].written.id) == Contribution(p, Parse(files[p]), files[p]);
    }
    forall other | !IdInFiles(files', other) ensures ShareOf(u, other) == EMPTY {
      if other != id {
        forall p | p in files ensures files[p].written.id != other { assert p != path ==> p in files'; }
        assert !IdInFiles(files, other);
      }
    }
  }

  // ----- The memories of a mutation -----

  /** An existing memory of the project under its own name, or a new one under a free name. */
  ghost predicate Placed(t: Tables, files: map<Path, Text>, project: Project, m: Memory) {
    && m.status.Some?
    && (if m.id in t.rows then t.rows[m.id].project == project && t.rows[m.id].name == m.name
        else Path(project, m.name) !in files && !IdInFiles(files, m.id))
  }

  ghost predicate Placeable(t: Tables, files: map<Path, Text>, project: Project, after: seq<Memory>) {
    && (forall i :: 0 <= i < |after| ==> Placed(t, files, project, after[i]))
    && forall i, j :: 0 <= i < j < |after| ==> after[i].id != after[j].id && after[i].name != after[j].name
  }

  function Written(files: map<Path, Text>, project: Project, after: seq<Memory>): map<Path, Text> {
    if after == [] then files
    else
      var m := after[|after| - 1];
      Written(files, project, after[..|after| - 1])[Path(project, m.name) := Serialize(m)]
  }

  lemma PlaceableAfter(t: Tables, u: Tables, files: map<Path, Text>, project: Project, after: seq<Memory>)
    requires |after| > 0 && Placeable(t, files, project, after) && OtherSharesKept(t, u, after[0].id)
    ensures Placeable(u, files[Path(project, after[0].name) := Serialize(after[0])], project, after[1..])
  {
    var path := Path(project, after[0].name);
    var files' := files[path := Serialize(after[0])];
    forall i | 0 <= i < |after[1..]| ensures Placed(u, files', project, after[1..][i]) {
      var m := after[1..][i];
      assert m == after[i + 1] && Placed(t, files, project, after[i + 1]);
      assert ShareOf(u, m.id) == ShareOf(t, m.id);
      if m.id !in t.rows {
        forall p | p in files' ensures files'[p].written.id != m.id { assert p != path ==> p in files; }
      }
    }
  }

  /** The tables with every body measured and searched as its file reads back. */
  ghost function Settled(t: Tables, files: map<Path, Text>): Tables {
    t.(rows := map id | id in t.rows :: SettledRow(t.rows[id], files),
       fts := map id | id in t.fts :: if id in t.rows then SettledDoc(t.fts[id], t.rows[id].filePath, files)
                                      else t.fts[id])
  }

  ghost function SettledRow(row: Row, files: map<Path, Text>): Row {
    if row.filePath in files then row.(bodyChars := |Parse(files[row.filePath]).body|) else row
  }

  ghost function SettledDoc(doc: Doc, path: Path, files: map<Path, Text>): Doc {
    if path in files then doc.(body := Parse(files[path]).body) else doc
  }

  ghost function SettledShare(share: Share, files: map<Path, Text>): Share {
    if share.row.None? then share
    else share.(row := Some(SettledRow(share.row.value, files)),
                fts := if share.fts.Some? then Some(SettledDoc(share.fts.value, share.row.value.filePath, files))
                       else None)
  }

  lemma ShareOfSettled(t: Tables, files: map<Path, Text>, id: MemoryId)
    ensures ShareOf(Settled(t, files), id) == SettledShare(ShareOf(t, id), files)
  {
  }

  /** Settling a share that was stored for a memory makes it the one its text reads back to. */
  lemma SettledContribution(path: Path, m: Memory, files: map<Path, Text>)
    requires m.status.Some? && path in files && files[path] == Serialize(m)
    ensures SettledShare(Contribution(path, m, Serialize(m)), files)
            == Contribution(path, Parse(Serialize(m)), Serialize(m))
  {
    ParseSerialize(m);
  }

  lemma SettledIsOk(t: Tables, files: map<Path, Text>)
    ensures TablesOk(Settled(t, files)) <==> TablesOk(t)
  {
    hide Linked, NoOrphans;
    var u := Settled(t, files);
    forall id | id in t.rows
      ensures id in u.rows && u.rows[id].project == t.rows[id].project && u.rows[id].name == t.rows[id].name
    {
    }
    if UniqueNames(u) {
      forall a, b | a in t.rows && b in t.rows && t.rows[a].project == t.rows[b].project
        && t.rows[a].name == t.rows[b].name
        ensures a == b
      {
        assert u.rows[a].name == u.rows[b].name;
      }
    }
  }

  /** The settled tables are those of the files. */
  ghost predicate SettledConsistent(t: Tables, files: map<Path, Text>) {
    Consistent(Settled(t, files), files)
  }

  lemma ConsistentIsSettled(t: Tables, files: map<Path, Text>)
    requires Consistent(t, files)
    ensures SettledConsistent(t, files)
  {
    hide TablesOk, Contribution, ShareOf, Settled;
    SettledIsOk(t, files);
    forall path | path in files
      ensures ShareOf(Settled(t, files), files[path].written.id) == Contribution(path, Parse(files[path]), files[path])
    {
      ShareOfSettled(t, files, files[path].written.id);
      ReadBackIsSettled(path, files);
    }
    forall id | !IdInFiles(files, id) ensures ShareOf(Settled(t, files), id) == EMPTY { ShareOfSettled(t, files, id); }
  }

  lemma ReadBackIsSettled(path: Path, files: map<Path, Text>)
    requires path in files
    ensures var share := Contribution(path, Parse(files[path]), files[path]); SettledShare(share, files) == share
  {
  }

  /** The memory's share is the one of the memory as it was given, not as its text reads back. */
  ghost predicate AsGiven(t: Tables, project: Project, m: Memory) {
    ShareOf(t, m.id) == Contribution(Path(project, m.name), m, Serialize(m))
  }

  ghost predicate HasIdOf(after: seq<Memory>, n: nat, id: MemoryId)
    requires n <= |after|
  {
    exists i :: 0 <= i < n && after[i].id == id
  }

  /** The first n memories are stored as given, and everything else is as it was. */
  ghost predicate Stored(t: Tables, files: map<Path, Text>, u: Tables, files': map<Path, Text>, project: Project,
                         after: seq<Memory>, n: nat)
    requires n <= |after|
  {
    && SettledConsistent(u, files') && GoodFiles(files') && files' == Written(files, project, after[..n]) && TablesOk(u)
    && (forall i :: 0 <= i < n ==> AsGiven(u, project, after[i]))
    && forall id :: !HasIdOf(after, n, id) ==> ShareOf(u, id) == ShareOf(t, id)
  }

  /** The transaction's part for one memory, on tables whose settled form is that of the files. */
  method StoreSettled(t: Tables, ghost files: map<Path, Text>, project: Project, m: Memory)
    returns (u: Tables, thrown: bool)
    requires SettledConsistent(t, files) && GoodFiles(files) && TablesOk(t) && Placed(t, files, project, m)
    ensures thrown <==> !Insertable(m)
    ensures !thrown ==> TablesOk(u) && OtherSharesKept(t, u, m.id) && AsGiven(u, project, m)
    ensures !thrown
            ==> var files' := files[Path(project, m.name) := Serialize(m)];
                GoodFiles(files') && SettledConsistent(u, files')
  {
    hide Linked, NoOrphans, ShareOf, Contribution, Insertable, OtherSharesKept, Settled;
    var path := Path(project, m.name);
    SettledPlace(t, files, project, m);
    u, thrown := Upsert(t, path, m, Serialize(m));
    if !thrown { StoredIsSettled(t, files, u, path, m); }
  }

  lemma SettledPlace(t: Tables, files: map<Path, Text>, project: Project, m: Memory)
    requires SettledConsistent(t, files) && GoodFiles(files) && TablesOk(t) && Placed(t, files, project, m)
    ensures AtHome(t, m.id, project) && (m.id !in t.rows ==> ShareOf(t, m.id) == EMPTY)
    ensures !NameClash(t, m.id, project, m.name)
    ensures var path := Path(project, m.name);
            if path in files then files[path].written.id == m.id else !IdInFiles(files, m.id)
  {
    hide Linked, NoOrphans, KgOf, GoodFiles;
    var g := Settled(t, files);
    forall other | other in t.rows
      ensures other in g.rows && g.rows[other].project == t.rows[other].project
      ensures g.rows[other].name == t.rows[other].name {}
    assert Placed(g, files, project, m);
    PlacedFits(g, files, project, m);
    ConsistentAtHome(g, files, m.id, project);
    FreeNameIffNoFile(g, files, m.id, Path(project, m.name));
    ShareOfSettled(t, files, m.id);
  }

  lemma StoredIsSettled(t: Tables, files: map<Path, Text>, u: Tables, path: Path, m: Memory)
    requires SettledConsistent(t, files) && GoodFiles(files) && TablesOk(u) && OtherSharesKept(t, u, m.id)
    requires m.status.Some? && m.name == path.name && Insertable(m)
    requires ShareOf(u, m.id) == Contribution(path, m, Serialize(m))
    requires if path in files then files[path].written.id == m.id else !IdInFiles(files, m.id)
    ensures var files' := files[path := Serialize(m)]; GoodFiles(files') && SettledConsistent(u, files')
  {
    hide TablesOk, ShareOf, Contribution, Insertable, Settled;
    var text, files' := Serialize(m), files[path := Serialize(m)];
    SerializedIsInsertable(m);
    ShareOfSettled(u, files', m.id);
    SettledContribution(path, m, files');
    SettledIsOk(u, files');
    forall other | other != m.id ensures ShareOf(Settled(u, files'), other) == ShareOf(Settled(t, files), other) {
      ShareOfSettled(u, files', other);
      ShareOfSettled(t, files, other);
      assert ShareOf(u, other) == ShareOf(t, other);
      OtherRowElsewhere(t, files, path, text, m.id, other);
    }
    WriteIsConsistentIff(Settled(t, files), files, Settled(u, files'), path, Parse(text), text);
  }

  /** The share of another memory does not lie in the file written. */
  lemma OtherRowElsewhere(t: Tables, files: map<Path, Text>, path: Path, text: Text, id: MemoryId, other: MemoryId)
    requires SettledConsistent(t, files) && other != id
    requires if path in files then files[path].written.id == id else !IdInFiles(files, id)
    ensures SettledShare(ShareOf(t, other), files[path := text]) == SettledShare(ShareOf(t, other), files)
  {
    hide TablesOk, Contribution;
    if other in t.rows {
      RowHasFile(Settled(t, files), files, other);
    }
  }

  lemma StoredNothing(t: Tables, files: map<Path, Text>, project: Project, after: seq<Memory>)
    requires Consistent(t, files) && GoodFiles(files)
    ensures Stored(t, files, t, files, project, after, 0)
  {
    ConsistentIsSettled(t, files);
    assert after[..0] == [];
  }

  lemma StoredMore(t: Tables, files: map<Path, Text>, u: Tables, files': map<Path, Text>, project: Project,
                   after: seq<Memory>, n: nat, v: Tables)
    requires n < |after| && Stored(t, files, u, files', project, after, n)
    requires forall i, j :: 0 <= i < j < |after| ==> after[i].id != after[j].id
    requires var more := files'[Path(project, after[n].name) := Serialize(after[n])];
             GoodFiles(more) && SettledConsistent(v, more)
    requires TablesOk(v) && OtherSharesKept(u, v, after[n].id) && AsGiven(v, project, after[n])
    ensures Stored(t, files, v, files'[Path(project, after[n].name) := Serialize(after[n])], project, after, n + 1)
  {
    hide SettledConsistent, GoodFiles, TablesOk, ShareOf, Contribution;
    assert after[..n + 1][..n] == after[..n];
    forall i | 0 <= i < n
      ensures AsGiven(v, project, after[i])
    {
      assert ShareOf(v, after[i].id) == ShareOf(u, after[i].id);
    }
    forall id | !HasIdOf(after, n + 1, id) ensures ShareOf(v, id) == ShareOf(t, id) {
      assert !HasIdOf(after, n, id) && after[n].id != id;
      assert ShareOf(v, id) == ShareOf(u, id);
    }
  }

  lemma {:induction false} WrittenAt(files: map<Path, Text>, project: Project, after: seq<Memory>, path: Path)
    requires forall i, j :: 0 <= i < j < |after| ==> after[i].name != after[j].name
    ensures var written := Written(files, project, after);
            && (forall i :: 0 <= i < |after|
                  ==> Path(project, after[i].name) in written
                      && written[Path(project, after[i].name)] == Serialize(after[i]))
            && ((forall i :: 0 <= i < |after| ==> path != Path(project, after[i].name))
                ==> (path in written <==> path in files) && (path in written ==> written[path] == files[path]))
  {
    if after != [] { WrittenAt(files, project, after[..|after| - 1], path); }
  }

  /** The tables are those of the files in the end exactly if all the memories stored are normal. */
  lemma StoredIsConsistentIff(t: Tables, files: map<Path, Text>, u: Tables, files': map<Path, Text>, project: Project,
                              after: seq<Memory>)
    requires Consistent(t, files) && Placeable(t, files, project, after)
    requires Stored(t, files, u, files', project, after, |after|)
    ensures Consistent(u, files') <==> forall i :: 0 <= i < |after| ==> Normal(after[i])
  {
    hide TablesOk, ShareOf, Contribution, Settled, Normal, GoodFiles;
    assert after[..|after|] == after;
    forall i | 0 <= i < |after|
      ensures Path(project, after[i].name) in files' && files'[Path(project, after[i].name)] == Serialize(after[i])
      ensures Consistent(u, files') ==> Normal(after[i])
      ensures Normal(after[i]) ==> ShareOf(u, after[i].id) == ShareOf(Settled(u, files'), after[i].id)
    {
      var path := Path(project, after[i].name);
      WrittenAt(files, project, after, path);
      assert Placed(t, files, project, after[i]) && AsGiven(u, project, after[i]);
      ContributionReadsBackIffNormal(path, after[i]);
      ShareOfSettled(u, files', after[i].id);
      SettledContribution(path, after[i], files');
    }
    if forall i :: 0 <= i < |after| ==> Normal(after[i]) {
      forall id ensures ShareOf(u, id) == ShareOf(Settled(u, files'), id) {
        if !HasIdOf(after, |after|, id) { UntouchedIsSettled(t, files, u, files', project, after, id); }
      }
    }
  }

  /** The file of a memory that was not stored is as it was. */
  lemma UntouchedFile(t: Tables, files: map<Path, Text>, u: Tables, files': map<Path, Text>, project: Project,
                      after: seq<Memory>, id: MemoryId)
    requires Consistent(t, files) && Stored(t, files, u, files', project, after, |after|)
    requires !HasIdOf(after, |after|, id)
    requires forall i, j :: 0 <= i < j < |after| ==> after[i].name != after[j].name
    requires id in u.rows && id in t.rows && u.rows[id] == t.rows[id]
    ensures var path := t.rows[id].filePath; path in files && path in files' && files'[path] == files[path]
  {
    hide TablesOk, GoodFiles, Contribution, ShareOf;
    var path := t.rows[id].filePath;
    RowHasFile(t, files, id);
    RowHasFile(Settled(u, files'), files', id);
    assert after[..|after|] == after;
    forall i | 0 <= i < |after| ensures path != Path(project, after[i].name) {
      WrittenAt(files, project, after, path);
      assert after[i].id != id;
    }
    WrittenAt(files, project, after, path);
  }

  /** The share of a memory that was not stored was that of its file and still is. */
  lemma UntouchedIsSettled(t: Tables, files: map<Path, Text>, u: Tables, files': map<Path, Text>, project: Project,
                           after: seq<Memory>, id: MemoryId)
    requires Consistent(t, files) && Stored(t, files, u, files', project, after, |after|)
    requires !HasIdOf(after, |after|, id)
    requires forall i, j :: 0 <= i < j < |after| ==> after[i].name != after[j].name
    ensures ShareOf(u, id) == ShareOf(Settled(u, files'), id)
  {
    hide TablesOk, GoodFiles, Contribution, Consistent, SettledConsistent, Settled, KgOf, ListOf;
    ShareOfSettled(u, files', id);
    assert ShareOf(u, id) == ShareOf(t, id);
    if id in u.rows {
      assert ShareOf(u, id).row == Some(u.rows[id]) && ShareOf(t, id).row == Some(u.rows[id]);
      UntouchedFile(t, files, u, files', project, after, id);
      RowHasFile(t, files, id);
      ReadBackIsSettled(t.rows[id].filePath, files');
    }
  }

  // ----- The rebuild -----

  lemma EmptyIsConsistent(t: Tables)
    requires t == Tables(map[], {}, {}, {}, map[], Kg(map[], {}, {}, {}, t.kg.next))
    ensures Consistent(t, map[]) && GoodFiles(map[])
  {
    forall id ensures ShareOf(t, id) == EMPTY {}
  }

  /** The files read so far. */
  ghost function Read(files: map<Path, Text>, listing: seq<Path>): map<Path, Text> {
    map path | path in files && path in listing :: files[path]
  }

  lemma NextFile(files: map<Path, Text>, listing: seq<Path>, i: nat)
    requires OwnFiles(files) && Distinct(listing) && i < |listing| && forall path :: path in files <==> path in listing
    ensures var path := listing[i];
            var sofar := Accepted(Read(files, listing[..i]));
            && path in files && path !in sofar && !IdInFiles(sofar, files[path].written.id)
            && files[path].written.name == path.name
            && Accepted(Read(files, listing[..i + 1]))
               == if Insertable(Parse(files[path])) then sofar[path := files[path]] else sofar
  {
    hide Insertable, Accepted;
    var path := listing[i];
    assert path in listing;
    assert listing[..i + 1] == listing[..i] + [path];
    forall p | p in listing[..i]
      ensures p != path
    {
      var j :| 0 <= j < i && listing[..i][j] == p;
      assert listing[j] == p;
    }
    var before := Read(files, listing[..i]);
    assert Read(files, listing[..i + 1]) == before[path := files[path]];
    AcceptedMore(before, path, files[path]);
  }

  lemma AcceptedMore(files: map<Path, Text>, path: Path, text: Text)
    requires path !in files
    ensures Accepted(files[path := text]) == if Insertable(Parse(text)) then Accepted(files)[path := text]
                                             else Accepted(files)
    ensures forall p :: p in Accepted(files) ==> p in files && Accepted(files)[p] == files[p]
  {
    hide Insertable;
  }

  lemma AcceptedIsAllIff(files: map<Path, Text>)
    requires OwnFiles(files)
    ensures GoodFiles(files) <==> Accepted(files) == files
  {
    hide Insertable;
    if Accepted(files) == files {
      forall path | path in files ensures Insertable(Parse(files[path])) { assert path in Accepted(files); }
    }
  }

  /**
    The excepted case of `Save` and `Update` exists: a body that ends in a line break is indexed longer than it reads
    back.
   */
  lemma TrailingNewlineIsNotNormal(m: Memory)
    requires m.body == ['n', 'o', 't', 'e', '\n']
    ensures !Normal(m) && Insertable(m) == Insertable(Parse(Serialize(m))) && |Parse(Serialize(m)).body| == 4
  {
    assert StripLeading(m.body) == m.body;
    assert m.body[..4] == ['n', 'o', 't', 'e'];
    assert StripTrailing(m.body[..4]) == m.body[..4];
    assert Strip(m.body) == m.body[..4];
  }
}
