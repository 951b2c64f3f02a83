/**
  What the derived tables hold for a memory, column by column, when they are those of the files, and which memories they
  accept.
 */
module IndexLaws {
  import opened Base
  import opened Markdown
  import opened KnowledgeGraph
  import opened MemoryIndex

  /**
    The tables refuse exactly an active memory that repeats an item of a list or relates an entity it does not have.
   */
  lemma RefusedIff(m: Memory)
    ensures !Insertable(m)
            <==> m.status != Some(Archived)
                 && ((exists i, j :: 0 <= i < j < |m.tags| && m.tags[i] == m.tags[j])
                     || (exists i, j :: 0 <= i < j < |m.links| && m.links[i] == m.links[j])
                     || (exists i, j :: 0 <= i < j < |m.supersedes| && m.supersedes[i] == m.supersedes[j])
                     || exists t <- m.triples :: (forall e <- m.entities :: e.name != t.subject)
                                                 || forall e <- m.entities :: e.name != t.target)
  {
    UndeclaredIff(m.entities, m.triples);
    match m.status
    case None =>
    case Some(status) => assert status.Active? || status.Archived?;
  }

  lemma UndeclaredIff(entities: seq<Entity>, triples: seq<Triple>)
    ensures !TriplesDeclared(entities, triples)
            <==> exists t <- triples :: (forall e <- entities :: e.name != t.subject)
                                        || forall e <- entities :: e.name != t.target
  {
    forall name ensures NamesEntity(entities, name) <==> !forall e <- entities :: e.name != name {
      if e :| e in entities && e.name == name {
        var i :| 0 <= i < |entities| && entities[i] == e;
        assert entities[i].name == name;
      }
    }
    hide NamesEntity;
    if TriplesDeclared(entities, triples) {
      forall t | t in triples ensures NamesEntity(entities, t.subject) && NamesEntity(entities, t.target) {
        var i :| 0 <= i < |triples| && triples[i] == t;
      }
    } else {
      var i :| 0 <= i < |triples|
               && !(NamesEntity(entities, triples[i].subject) && NamesEntity(entities, triples[i].target));
      assert triples[i] in triples;
    }
  }

  /** The row of a memory: every column is the memory's, and path, project and hash are those of its file. */
  lemma RowOfFile(t: Tables, files: map<Path, Text>, path: Path)
    requires Consistent(t, files) && path in files
    ensures var m := Parse(files[path]);
            && m.id in t.rows
            && var row := t.rows[m.id];
               && row.project == path.project && row.filePath == path && row.contentHash == Sha256(files[path])
               && row.name == m.name && row.kind == m.kind && row.description == m.description
               && row.bodyChars == |m.body| && m.status == Some(row.status)
               && row.lastReviewed == m.lastReviewed && row.nextReview == m.nextReview
               && row.archivedAt == m.archivedAt && row.archiveReason == m.archiveReason
               && row.archivedBy == m.archivedBy && row.createdAt == m.createdAt && row.updatedAt == m.updatedAt
  {
    FileHasRow(t, files, path);
  }

  /** An active memory is listed and searchable by everything in its file, an archived one by nothing. */
  lemma ListsOfFile(t: Tables, files: map<Path, Text>, path: Path)
    requires Consistent(t, files) && path in files
    ensures var m := Parse(files[path]); var active := m.status == Some(Active);
            && (forall x :: (m.id, x) in t.tags <==> active && x in m.tags)
            && (forall x :: (m.id, x) in t.links <==> active && x in m.links)
            && (forall x :: (m.id, x) in t.supersedes <==> active && x in m.supersedes)
            && (m.id in t.fts <==> active)
            && (active ==> t.fts[m.id] == Doc(m.name, m.description, m.body))
  {
    var m := Parse(files[path]);
    assert ShareOf(t, m.id) == Contribution(path, m, files[path]);
    hide TablesOk, Declared, KgOf;
    forall x
      ensures (m.id, x) in t.tags <==> x in ListOf(t.tags, m.id)
      ensures (m.id, x) in t.links <==> x in ListOf(t.links, m.id)
      ensures (m.id, x) in t.supersedes <==> x in ListOf(t.supersedes, m.id)
    {
    }
    hide ListOf;
    assert m.id in t.fts <==> ShareOf(t, m.id).fts.Some?;
  }

  /** The memory is a member of the entity with this name in the project. */
  ghost predicate IsMember(kg: Kg, id: MemoryId, ent: Ent) {
    exists e :: e in kg.entities && kg.entities[e] == ent && (id, e) in kg.memberships
  }

  ghost predicate AssertsAlias(kg: Kg, id: MemoryId, ent: Ent, name: Name) {
    exists e :: e in kg.entities && kg.entities[e] == ent && (e, name, id) in kg.aliases
  }

  ghost predicate AssertsEdge(kg: Kg, id: MemoryId, subject: Ent, relation: int, target: Ent) {
    exists e, f :: e in kg.entities && f in kg.entities && kg.entities[e] == subject && kg.entities[f] == target
                   && (e, f, relation, id) in kg.edges
  }

  /** The knowledge graph holds for an active memory exactly its entities, their aliases and its triples. */
  lemma GraphOfFile(t: Tables, files: map<Path, Text>, path: Path)
    requires Consistent(t, files) && path in files
    ensures var m := Parse(files[path]); var active := m.status == Some(Active);
            && (forall ent :: IsMember(t.kg, m.id, ent)
                  <==> active && ent.project == path.project && exists e <- m.entities :: e.name == ent.name)
            && (forall ent, name :: AssertsAlias(t.kg, m.id, ent, name)
                  <==> active && ent.project == path.project
                       && exists e <- m.entities :: e.name == ent.name && name in e.aliases)
            && forall a, relation, b :: AssertsEdge(t.kg, m.id, a, relation, b)
                 <==> active && a.project == path.project && b.project == path.project
                      && Triple(a.name, relation, b.name) in m.triples
  {
    var m := Parse(files[path]);
    var share := KgOf(t.kg, m.id);
    assert ShareOf(t, m.id) == Contribution(path, m, files[path]);
    assert share == if IsActive(m) then Declared(path.project, m.entities, m.triples) else NO_SHARE;
    forall ent ensures IsMember(t.kg, m.id, ent) <==> ent in share.members { MemberIff(t.kg, m.id, ent); }
    forall ent, name ensures AssertsAlias(t.kg, m.id, ent, name) <==> (ent, name) in share.aliases {
      AliasIff(t.kg, m.id, ent, name);
    }
    forall a, relation, b ensures AssertsEdge(t.kg, m.id, a, relation, b) <==> (a, relation, b) in share.edges {
      EdgeIff(t.kg, m.id, a, relation, b);
    }
    hide Consistent, KgOf, IsMember, AssertsAlias, AssertsEdge, ShareOf, Contribution;
    DeclaredIs(path.project, m.entities, m.triples);
  }

  lemma MemberIff(kg: Kg, id: MemoryId, ent: Ent)
    ensures IsMember(kg, id, ent) <==> ent in KgOf(kg, id).members
  {
    if e :| e in kg.entities && kg.entities[e] == ent && (id, e) in kg.memberships {
      var x := (id, e);
      assert x in kg.memberships && kg.entities[x.1] == ent;
    }
    if ent in MembersOf(kg, id) {
      var x :| x in kg.memberships && x.0 == id && x.1 in kg.entities && kg.entities[x.1] == ent;
      assert x == (id, x.1);
    }
  }

  lemma AliasIff(kg: Kg, id: MemoryId, ent: Ent, name: Name)
    ensures AssertsAlias(kg, id, ent, name) <==> (ent, name) in KgOf(kg, id).aliases
  {
    if e :| e in kg.entities && kg.entities[e] == ent && (e, name, id) in kg.aliases {
      var x := (e, name, id);
      assert x in kg.aliases && (kg.entities[x.0], x.1) == (ent, name);
    }
    if (ent, name) in AliasesOf(kg, id) {
      var x :| x in kg.aliases && x.2 == id && x.0 in kg.entities && (kg.entities[x.0], x.1) == (ent, name);
      assert x == (x.0, name, id);
    }
  }

  lemma EdgeIff(kg: Kg, id: MemoryId, a: Ent, relation: int, b: Ent)
    ensures AssertsEdge(kg, id, a, relation, b) <==> (a, relation, b) in KgOf(kg, id).edges
  {
    if AssertsEdge(kg, id, a, relation, b) {
      var e, f :| e in kg.entities && f in kg.entities && kg.entities[e] == a && kg.entities[f] == b
                  && (e, f, relation, id) in kg.edges;
      var x := (e, f, relation, id);
      assert x in kg.edges && (kg.entities[x.0], x.2, kg.entities[x.1]) == (a, relation, b);
    }
    if (a, relation, b) in EdgesOf(kg, id) {
      var x :| x in kg.edges && x.3 == id && x.0 in kg.entities && x.1 in kg.entities
        && (kg.entities[x.0], x.2, kg.entities[x.1]) == (a, relation, b);
      assert x == (x.0, x.1, relation, id);
    }
  }

  lemma DeclaredIs(project: Project, entities: seq<Entity>, triples: seq<Triple>)
    ensures var share := Declared(project, entities, triples);
            && (forall ent :: ent in share.members
                  <==> ent.project == project && exists e <- entities :: e.name == ent.name)
            && (forall ent, name :: (ent, name) in share.aliases
                  <==> ent.project == project && exists e <- entities :: e.name == ent.name && name in e.aliases)
            && forall a, relation, b :: (a, relation, b) in share.edges
                 <==> a.project == project && b.project == project && Triple(a.name, relation, b.name) in triples
  {
    forall ent: Ent | ent.project == project && exists e <- entities :: e.name == ent.name
      ensures ent in DeclaredMembers(project, entities)
    {
      var e :| e in entities && e.name == ent.name;
      assert ent == Ent(project, e.name);
    }
    forall ent: Ent, name: Name | ent.project == project
      && exists e <- entities :: e.name == ent.name && name in e.aliases
      ensures (ent, name) in DeclaredAliases(project, entities)
    {
      var e :| e in entities && e.name == ent.name && name in e.aliases;
      assert ent == Ent(project, e.name);
    }
    forall a: Ent, relation: int, b: Ent | a.project == project && b.project == project
      && Triple(a.name, relation, b.name) in triples
      ensures (a, relation, b) in DeclaredEdges(project, triples)
    {
      var t := Triple(a.name, relation, b.name);
      assert (a, relation, b) == (Ent(project, t.subject), t.relation, Ent(project, t.target));
    }
  }
}
