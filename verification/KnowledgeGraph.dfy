/**
  The knowledge-graph tables: entities with generated ids, memberships, aliases and edges asserted by memories. A
  memory's share of the tables, read through the entity names, is what it declares, whatever the ids are and in
  whatever order memories came.
 */
module KnowledgeGraph {
  import opened Base
  import opened Markdown

  type Project = int
  type EntityId = nat

  /** An entity as the project knows it. */
  datatype Ent = Ent(project: Project, name: Name)

  /** The four tables; `next` is the source of fresh entity ids. */
  datatype Kg = Kg(entities: map<EntityId, Ent>, memberships: set<(MemoryId, EntityId)>,
                   aliases: set<(EntityId, Name, MemoryId)>,
                   edges: set<(EntityId, EntityId, int, MemoryId)>, next: nat)

  /** What one memory has in the tables, with entity ids replaced by what they name. */
  datatype KgShare = KgShare(members: set<Ent>, aliases: set<(Ent, Name)>, edges: set<(Ent, int, Ent)>)

  const NO_SHARE := KgShare({}, {}, {})

  // ----- The tables -----

  ghost predicate HasMember(kg: Kg, e: EntityId) { exists x :: x in kg.memberships && x.1 == e }

  /** Ids are unique per name and used ones are not given out again. */
  ghost predicate IdsOk(kg: Kg) {
    (forall e :: e in kg.entities ==> e < kg.next)
      && forall e, f :: e in kg.entities && f in kg.entities && kg.entities[e] == kg.entities[f] ==> e == f
  }

  ghost predicate MembershipsOk(kg: Kg) {
    forall x :: x in kg.memberships ==> x.1 in kg.entities
  }

  /** An alias or edge is asserted by a memory about entities that are its members: nothing dangles. */
  ghost predicate AliasesOk(kg: Kg) {
    forall x :: x in kg.aliases ==> (x.2, x.0) in kg.memberships
  }

  ghost predicate EdgesOk(kg: Kg) {
    forall x :: x in kg.edges ==> (x.3, x.0) in kg.memberships && (x.3, x.1) in kg.memberships
  }

  ghost predicate Linked(kg: Kg) {
    IdsOk(kg) && MembershipsOk(kg) && AliasesOk(kg) && EdgesOk(kg)
  }

  ghost predicate NoOrphans(kg: Kg) {
    forall e :: e in kg.entities ==> HasMember(kg, e)
  }

  ghost function MembersOf(kg: Kg, id: MemoryId): set<Ent> {
    set x | x in kg.memberships && x.0 == id && x.1 in kg.entities :: kg.entities[x.1]
  }

  ghost function AliasesOf(kg: Kg, id: MemoryId): set<(Ent, Name)> {
    set x | x in kg.aliases && x.2 == id && x.0 in kg.entities :: (kg.entities[x.0], x.1)
  }

  ghost function EdgesOf(kg: Kg, id: MemoryId): set<(Ent, int, Ent)> {
    set x | x in kg.edges && x.3 == id && x.0 in kg.entities
      && x.1 in kg.entities :: (kg.entities[x.0], x.2, kg.entities[x.1])
  }

  ghost function KgOf(kg: Kg, id: MemoryId): KgShare {
    KgShare(MembersOf(kg, id), AliasesOf(kg, id), EdgesOf(kg, id))
  }

  // ----- What a memory declares -----

  ghost function DeclaredMembers(project: Project, entities: seq<Entity>): set<Ent> {
    set e | e in entities :: Ent(project, e.name)
  }

  ghost function DeclaredAliases(project: Project, entities: seq<Entity>): set<(Ent, Name)> {
    set e, a | e in entities && a in e.aliases :: (Ent(project, e.name), a)
  }

  ghost function DeclaredEdges(project: Project, triples: seq<Triple>): set<(Ent, int, Ent)> {
    set t | t in triples :: (Ent(project, t.subject), t.relation, Ent(project, t.target))
  }

  ghost function Declared(project: Project, entities: seq<Entity>, triples: seq<Triple>): KgShare {
    KgShare(DeclaredMembers(project, entities), DeclaredAliases(project, entities), DeclaredEdges(project, triples))
  }

  predicate NamesEntity(entities: seq<Entity>, name: Name) {
    exists i :: 0 <= i < |entities| && entities[i].name == name
  }

  /** Every triple speaks of declared entities. */
  ghost predicate TriplesDeclared(entities: seq<Entity>, triples: seq<Triple>) {
    forall i :: 0 <= i < |triples|
      ==> NamesEntity(entities, triples[i].subject) && NamesEntity(entities, triples[i].target)
  }

  // ----- Deleting -----

  /** The rows of one memory are deleted from the three tables. */
  function Removed(kg: Kg, id: MemoryId): Kg {
    kg.(edges := (set x | x in kg.edges && x.3 != id), aliases := (set x | x in kg.aliases && x.2 != id),
    memberships := (set x | x in kg.memberships && x.0 != id))
  }

  /**
    `pruneOrphanEntities`: unused entities of the project go, and with them, by the foreign keys, what refers to them.
   */
  function Pruned(kg: Kg, project: Project): Kg {
    var used := set x | x in kg.memberships :: x.1;
    var kept := map e | e in kg.entities && (kg.entities[e].project != project || e in used) :: kg.entities[e];
    kg.(entities := kept, memberships := (set x | x in kg.memberships && x.1 in kept),
    aliases := (set x | x in kg.aliases && x.0 in kept), edges := (set x | x in kg.edges && x.0 in kept && x.1 in kept))
  }

  /** Pruning never takes a referenced row along, and leaves every memory's share as it is. */
  lemma PruneKeepsShares(kg: Kg, project: Project)
    requires Linked(kg)
    ensures var t := Pruned(kg, project);
            Linked(t) && t == kg.(entities := t.entities) && forall id :: KgOf(t, id) == KgOf(kg, id)
  {
    var t := Pruned(kg, project);
    assert t.memberships == kg.memberships;
    forall x | x in kg.aliases ensures x.0 in t.entities { assert (x.2, x.0) in kg.memberships; }
    assert t.aliases == kg.aliases;
    forall x | x in kg.edges
      ensures x.0 in t.entities && x.1 in t.entities
    {
      assert (x.3, x.0) in kg.memberships && (x.3, x.1) in kg.memberships;
    }
    assert t.edges == kg.edges;
    forall id ensures KgOf(t, id) == KgOf(kg, id) {
      assert MembersOf(t, id) == MembersOf(kg, id);
      assert AliasesOf(t, id) == AliasesOf(kg, id);
      assert EdgesOf(t, id) == EdgesOf(kg, id);
    }
  }

  lemma RemoveKeepsOthers(kg: Kg, id: MemoryId)
    requires Linked(kg)
    ensures var t := Removed(kg, id);
            Linked(t) && KgOf(t, id) == NO_SHARE && forall other :: other != id ==> KgOf(t, other) == KgOf(kg, other)
  {
    var t := Removed(kg, id);
    forall other | other != id ensures KgOf(t, other) == KgOf(kg, other) {
      assert MembersOf(t, other) == MembersOf(kg, other);
      assert AliasesOf(t, other) == AliasesOf(kg, other);
      assert EdgesOf(t, other) == EdgesOf(kg, other);
    }
  }

  /** All entities without a member belong to one project. */
  ghost predicate OrphansOnlyIn(kg: Kg, project: Project) {
    forall e :: e in kg.entities && !HasMember(kg, e) ==> kg.entities[e].project == project
  }

  lemma PruneLeavesNoOrphans(kg: Kg, project: Project)
    requires Linked(kg) && OrphansOnlyIn(kg, project)
    ensures NoOrphans(Pruned(kg, project))
  {
    PruneKeepsShares(kg, project);
    var t := Pruned(kg, project);
    forall e | e in t.entities ensures HasMember(t, e) {
      if kg.entities[e].project == project {
        var x :| x in kg.memberships && x.1 == e;
        assert x in t.memberships;
      } else {
        assert HasMember(kg, e);
        var x :| x in kg.memberships && x.1 == e;
        assert x in t.memberships;
      }
    }
  }

  /** The members of the memory are entities of the project. */
  ghost predicate InProject(kg: Kg, id: MemoryId, project: Project) {
    forall x :: x in kg.memberships && x.0 == id && x.1 in kg.entities ==> kg.entities[x.1].project == project
  }

  lemma RemovalOrphansInProject(kg: Kg, id: MemoryId, project: Project)
    requires NoOrphans(kg) && InProject(kg, id, project)
    ensures OrphansOnlyIn(Removed(kg, id), project)
  {
    var t := Removed(kg, id);
    forall e | e in t.entities && !HasMember(t, e) ensures t.entities[e].project == project {
      assert HasMember(kg, e);
      var x :| x in kg.memberships && x.1 == e;
      assert x.0 != id ==> x in t.memberships;
    }
  }

  /** `removeMemoryKg`. */
  method RemoveMemoryKg(kg: Kg, project: Project, id: MemoryId) returns (t: Kg)
    requires Linked(kg)
    ensures Linked(t) && KgOf(t, id) == NO_SHARE && forall other :: other != id ==> KgOf(t, other) == KgOf(kg, other)
    ensures NoOrphans(kg) && InProject(kg, id, project) ==> NoOrphans(t)
  {
    hide Linked, KgOf;
    t := Removed(kg, id);
    RemoveKeepsOthers(kg, id);
    PruneKeepsShares(t, project);
    if NoOrphans(kg) && InProject(kg, id, project) {
      RemovalOrphansInProject(kg, id, project);
      PruneLeavesNoOrphans(t, project);
    }
    t := Pruned(t, project);
  }

  // ----- Adding -----

  /** The shares of all other memories are as they were. */
  ghost predicate OthersKept(kg: Kg, t: Kg, id: MemoryId) {
    forall other :: other != id ==> KgOf(t, other) == KgOf(kg, other)
  }

  lemma OthersKeptTwice(kg: Kg, t: Kg, u: Kg, id: MemoryId)
    requires OthersKept(kg, t, id) && OthersKept(t, u, id)
    ensures OthersKept(kg, u, id)
  {
    forall other | other != id ensures KgOf(u, other) == KgOf(kg, other) { assert KgOf(t, other) == KgOf(kg, other); }
  }

  function WithEntity(kg: Kg, ent: Ent): Kg { kg.(entities := kg.entities[kg.next := ent], next := kg.next + 1) }

  function WithMembership(kg: Kg, id: MemoryId, e: EntityId): Kg { kg.(memberships := kg.memberships + {(id, e)}) }

  function WithAlias(kg: Kg, id: MemoryId, e: EntityId, alias: Name): Kg {
    kg.(aliases := kg.aliases + {(e, alias, id)})
  }

  function WithEdge(kg: Kg, id: MemoryId, s: EntityId, o: EntityId, relation: int): Kg {
    kg.(edges := kg.edges + {(s, o, relation, id)})
  }

  lemma EntityKeepsShares(kg: Kg, ent: Ent)
    requires Linked(kg) && forall e :: e in kg.entities ==> kg.entities[e] != ent
    ensures Linked(WithEntity(kg, ent)) && forall id :: KgOf(WithEntity(kg, ent), id) == KgOf(kg, id)
  {
    var t := WithEntity(kg, ent);
    forall id ensures KgOf(t, id) == KgOf(kg, id) {
      assert MembersOf(t, id) == MembersOf(kg, id);
      assert AliasesOf(t, id) == AliasesOf(kg, id) by {
        forall x | x in kg.aliases ensures x.0 in kg.entities { assert (x.2, x.0) in kg.memberships; }
      }
      assert EdgesOf(t, id) == EdgesOf(kg, id) by {
        forall x | x in kg.edges
          ensures x.0 in kg.entities && x.1 in kg.entities
        {
          assert (x.3, x.0) in kg.memberships && (x.3, x.1) in kg.memberships;
        }
      }
    }
  }

  lemma MembershipAdds(kg: Kg, id: MemoryId, e: EntityId)
    requires Linked(kg) && e in kg.entities
    ensures var t := WithMembership(kg, id, e);
            Linked(t) && OthersKept(kg, t, id)
              && KgOf(t, id) == KgOf(kg, id).(members := KgOf(kg, id).members + {kg.entities[e]})
  {
    var t := WithMembership(kg, id, e);
    assert (id, e) in t.memberships;
    assert MembersOf(t, id) == MembersOf(kg, id) + {kg.entities[e]};
    assert AliasesOf(t, id) == AliasesOf(kg, id) && EdgesOf(t, id) == EdgesOf(kg, id);
    forall other | other != id ensures KgOf(t, other) == KgOf(kg, other) {
      assert MembersOf(t, other) == MembersOf(kg, other) && AliasesOf(t, other) == AliasesOf(kg, other)
        && EdgesOf(t, other) == EdgesOf(kg, other);
    }
  }

  lemma AliasAdds(kg: Kg, id: MemoryId, e: EntityId, alias: Name)
    requires Linked(kg) && e in kg.entities && (id, e) in kg.memberships
    ensures var t := WithAlias(kg, id, e, alias);
            Linked(t) && OthersKept(kg, t, id)
              && KgOf(t, id) == KgOf(kg, id).(aliases := KgOf(kg, id).aliases + {(kg.entities[e], alias)})
  {
    var t := WithAlias(kg, id, e, alias);
    assert (e, alias, id) in t.aliases;
    assert AliasesOf(t, id) == AliasesOf(kg, id) + {(kg.entities[e], alias)};
    assert MembersOf(t, id) == MembersOf(kg, id) && EdgesOf(t, id) == EdgesOf(kg, id);
    forall other | other != id ensures KgOf(t, other) == KgOf(kg, other) {
      assert MembersOf(t, other) == MembersOf(kg, other) && AliasesOf(t, other) == AliasesOf(kg, other)
        && EdgesOf(t, other) == EdgesOf(kg, other);
    }
  }

  lemma EdgeAdds(kg: Kg, id: MemoryId, s: EntityId, o: EntityId, relation: int)
    requires Linked(kg) && s in kg.entities && o in kg.entities && (id, s) in kg.memberships
    requires (id, o) in kg.memberships
    ensures var t := WithEdge(kg, id, s, o, relation);
            Linked(t) && OthersKept(kg, t, id)
              && KgOf(t, id)
                 == KgOf(kg, id).(edges := KgOf(kg, id).edges + {(kg.entities[s], relation, kg.entities[o])})
  {
    var t := WithEdge(kg, id, s, o, relation);
    assert (s, o, relation, id) in t.edges;
    assert EdgesOf(t, id) == EdgesOf(kg, id) + {(kg.entities[s], relation, kg.entities[o])};
    assert MembersOf(t, id) == MembersOf(kg, id) && AliasesOf(t, id) == AliasesOf(kg, id);
    forall other | other != id ensures KgOf(t, other) == KgOf(kg, other) {
      assert MembersOf(t, other) == MembersOf(kg, other) && AliasesOf(t, other) == AliasesOf(kg, other)
        && EdgesOf(t, other) == EdgesOf(kg, other);
    }
  }

  /** `entityId`: the project's entity of that name, or a new one. */
  method EntityIdOf(kg: Kg, project: Project, name: Name) returns (t: Kg, e: EntityId)
    requires Linked(kg)
    ensures Linked(t) && e in t.entities && t.entities[e] == Ent(project, name)
    ensures (forall id :: KgOf(t, id) == KgOf(kg, id)) && t.memberships == kg.memberships
    ensures forall f :: f in kg.entities ==> f in t.entities && t.entities[f] == kg.entities[f]
    ensures forall f :: f in t.entities ==> f in kg.entities || f == e
  {
    if exists f :: f in kg.entities && kg.entities[f] == Ent(project, name) {
      e :| e in kg.entities && kg.entities[e] == Ent(project, name);
      t := kg;
    } else {
      EntityKeepsShares(kg, Ent(project, name));
      t, e := WithEntity(kg, Ent(project, name)), kg.next;
    }
  }

  /** The ids handed out so far, as the `ids` map of `applyMemoryKg` holds them. */
  ghost predicate IdsKnown(kg: Kg, project: Project, id: MemoryId, ids: map<Name, EntityId>) {
    forall name :: name in ids
      ==> ids[name] in kg.entities && kg.entities[ids[name]] == Ent(project, name) && (id, ids[name]) in kg.memberships
  }

  /** One declared entity: its membership and its aliases. */
  method ApplyEntity(kg: Kg, project: Project, id: MemoryId, entity: Entity, ids: map<Name, EntityId>)
    returns (t: Kg, ids': map<Name, EntityId>)
    requires Linked(kg) && IdsKnown(kg, project, id, ids) && OrphansOnlyIn(kg, project)
    ensures Linked(t) && IdsKnown(t, project, id, ids') && OrphansOnlyIn(t, project) && OthersKept(kg, t, id)
    ensures ids'.Keys == ids.Keys + {entity.name}
    ensures KgOf(t, id)
            == KgShare(KgOf(kg, id).members + {Ent(project, entity.name)},
                       KgOf(kg, id).aliases + DeclaredAliases(project, [entity]), KgOf(kg, id).edges)
  {
    hide Linked, KgOf;
    var e;
    if entity.name in ids { t, e := kg, ids[entity.name]; } else { t, e := EntityIdOf(kg, project, entity.name); }
    var found := t;
    MembershipAdds(found, id, e);
    t := WithMembership(found, id, e);
    MemberCoversOrphan(kg, found, t, project, id, e);
    ids' := ids[entity.name := e];
    OthersKeptTwice(kg, found, t, id);
    ghost var start := t;
    assert DeclaredAliases(project, [Entity(entity.name, [])]) == {};
    for i := 0 to |entity.aliases|
      invariant Linked(t) && t.entities == start.entities && t.memberships == start.memberships && OthersKept(kg, t, id)
      invariant KgOf(t, id)
                == KgOf(start, id).(aliases := KgOf(kg, id).aliases
                                               + DeclaredAliases(project, [Entity(entity.name, entity.aliases[..i])]))
    {
      assert (id, e) in start.memberships;
      AliasAdds(t, id, e, entity.aliases[i]);
      OthersKeptTwice(kg, t, WithAlias(t, id, e, entity.aliases[i]), id);
      MoreAliases(project, entity, i);
      t := WithAlias(t, id, e, entity.aliases[i]);
    }
    assert Entity(entity.name, entity.aliases[..|entity.aliases|]) == entity;
  }

  lemma MoreAliases(project: Project, entity: Entity, i: nat)
    requires i < |entity.aliases|
    ensures DeclaredAliases(project, [Entity(entity.name, entity.aliases[..i + 1])])
            == DeclaredAliases(project, [Entity(entity.name, entity.aliases[..i])])
               + {(Ent(project, entity.name), entity.aliases[i])}
  {
    var before, after := Entity(entity.name, entity.aliases[..i]), Entity(entity.name, entity.aliases[..i + 1]);
    assert after.aliases == before.aliases + [entity.aliases[i]];
    assert before in [before] && after in [after];
    forall a | a in after.aliases ensures (Ent(project, entity.name), a) in DeclaredAliases(project, [after]) {
      assert after in [after] && a in after.aliases;
    }
  }

  /** A new entity is an orphan only until its membership is inserted. */
  lemma MemberCoversOrphan(kg: Kg, found: Kg, t: Kg, project: Project, id: MemoryId, e: EntityId)
    requires OrphansOnlyIn(kg, project) && found.memberships == kg.memberships && t == WithMembership(found, id, e)
    requires forall f :: f in kg.entities ==> f in found.entities && found.entities[f] == kg.entities[f]
    requires forall f :: f in found.entities ==> f in kg.entities || f == e
    ensures OrphansOnlyIn(t, project)
  {
    assert (id, e) in t.memberships;
    forall f | HasMember(kg, f) ensures HasMember(t, f) {
      var x :| x in kg.memberships && x.1 == f;
      assert x in t.memberships;
    }
    assert HasMember(t, e);
  }

  /** The loop over the declared entities. */
  method ApplyEntities(kg: Kg, project: Project, id: MemoryId, entities: seq<Entity>)
    returns (t: Kg, ids: map<Name, EntityId>)
    requires Linked(kg) && OrphansOnlyIn(kg, project) && KgOf(kg, id) == NO_SHARE
    ensures Linked(t) && IdsKnown(t, project, id, ids) && OrphansOnlyIn(t, project) && OthersKept(kg, t, id)
    ensures forall name :: name in ids <==> NamesEntity(entities, name)
    ensures KgOf(t, id) == Declared(project, entities, [])
  {
    t, ids := kg, map[];
    assert entities[..0] == [];
    assert Declared(project, [], []) == NO_SHARE;
    for k := 0 to |entities|
      invariant Linked(t) && IdsKnown(t, project, id, ids) && OrphansOnlyIn(t, project) && OthersKept(kg, t, id)
      invariant forall name :: name in ids <==> NamesEntity(entities[..k], name)
      invariant KgOf(t, id) == Declared(project, entities[..k], [])
    {
      hide Linked, KgOf, OthersKept, OrphansOnlyIn, IdsKnown;
      ghost var before := t;
      t, ids := ApplyEntity(t, project, id, entities[k], ids);
      OthersKeptTwice(kg, before, t, id);
      MoreEntities(project, entities, k);
    }
    assert entities[..|entities|] == entities;
  }

  lemma MoreEntities(project: Project, entities: seq<Entity>, k: nat)
    requires k < |entities|
    ensures DeclaredMembers(project, entities[..k + 1])
            == DeclaredMembers(project, entities[..k]) + {Ent(project, entities[k].name)}
    ensures DeclaredAliases(project, entities[..k + 1])
            == DeclaredAliases(project, entities[..k]) + DeclaredAliases(project, [entities[k]])
    ensures forall name :: NamesEntity(entities[..k + 1], name)
              <==> NamesEntity(entities[..k], name) || entities[k].name == name
  {
    var before, after := entities[..k], entities[..k + 1];
    assert after == before + [entities[k]];
    forall x | x in DeclaredAliases(project, after)
      ensures x in DeclaredAliases(project, before) + DeclaredAliases(project, [entities[k]])
    {
      var e, a :| e in after && a in e.aliases && x == (Ent(project, e.name), a);
      assert e in before || e in [entities[k]];
    }
    forall x | x in DeclaredAliases(project, [entities[k]]) ensures x in DeclaredAliases(project, after) {
      var e, a :| e in [entities[k]] && a in e.aliases && x == (Ent(project, e.name), a);
      assert e in after;
    }
    forall name ensures NamesEntity(after, name) <==> NamesEntity(before, name) || entities[k].name == name {
      if NamesEntity(before, name) { var i :| 0 <= i < k && before[i].name == name; assert after[i].name == name; }
      assert after[k].name == entities[k].name;
    }
  }

  /** The loop over the triples, whose entities all have ids by now. */
  method ApplyTriples(kg: Kg, project: Project, id: MemoryId, triples: seq<Triple>, ids: map<Name, EntityId>)
    returns (t: Kg)
    requires Linked(kg) && IdsKnown(kg, project, id, ids) && OrphansOnlyIn(kg, project) && KgOf(kg, id).edges == {}
    requires forall i :: 0 <= i < |triples| ==> triples[i].subject in ids && triples[i].target in ids
    ensures Linked(t) && OrphansOnlyIn(t, project) && OthersKept(kg, t, id)
    ensures KgOf(t, id) == KgOf(kg, id).(edges := DeclaredEdges(project, triples))
  {
    t := kg;
    for k := 0 to |triples|
      invariant Linked(t) && OthersKept(kg, t, id) && t.entities == kg.entities && t.memberships == kg.memberships
      invariant KgOf(t, id) == KgOf(kg, id).(edges := DeclaredEdges(project, triples[..k]))
    {
      hide Linked, KgOf;
      var s, o := ids[triples[k].subject], ids[triples[k].target];
      EdgeAdds(t, id, s, o, triples[k].relation);
      OthersKeptTwice(kg, t, WithEdge(t, id, s, o, triples[k].relation), id);
      assert triples[..k + 1] == triples[..k] + [triples[k]];
      t := WithEdge(t, id, s, o, triples[k].relation);
    }
    assert triples[..|triples|] == triples;
    SameMembersSameOrphans(kg, t, project);
  }

  lemma SameMembersSameOrphans(kg: Kg, t: Kg, project: Project)
    requires OrphansOnlyIn(kg, project) && t.entities == kg.entities && t.memberships == kg.memberships
    ensures OrphansOnlyIn(t, project)
  {
    forall e | e in t.entities && !HasMember(t, e)
      ensures t.entities[e].project == project
    {
      assert HasMember(kg, e) ==> HasMember(t, e);
    }
  }

  /**
    `applyMemoryKg`. It throws exactly if an active memory has a triple about an undeclared entity; otherwise the
    memory's share becomes what it declares, or nothing for an archived one, every other share stays, and no entity is
    left without a member.
   */
  method ApplyMemoryKg(kg: Kg, project: Project, id: MemoryId, entities: seq<Entity>, triples: seq<Triple>,
                       archived: bool) returns (t: Kg, thrown: bool)
    requires Linked(kg) && NoOrphans(kg) && InProject(kg, id, project)
    ensures thrown <==> !archived && !TriplesDeclared(entities, triples)
    ensures !thrown
            ==> Linked(t) && NoOrphans(t) && OthersKept(kg, t, id)
                && KgOf(t, id) == if archived then NO_SHARE else Declared(project, entities, triples)
  {
    hide Linked, KgOf;
    t := Removed(kg, id);
    thrown := false;
    RemoveKeepsOthers(kg, id);
    RemovalOrphansInProject(kg, id, project);
    assert OthersKept(kg, t, id);
    if archived {
      t := FinallyPruned(kg, t, project, id);
      return;
    }
    for i := 0 to |triples|
      invariant forall j :: 0 <= j < i
                  ==> NamesEntity(entities, triples[j].subject) && NamesEntity(entities, triples[j].target)
    {
      if !NamesEntity(entities, triples[i].subject) || !NamesEntity(entities, triples[i].target) { return t, true; }
    }
    ghost var emptied := t;
    var ids;
    t, ids := ApplyEntities(t, project, id, entities);
    OthersKeptTwice(kg, emptied, t, id);
    ghost var joined := t;
    t := ApplyTriples(t, project, id, triples, ids);
    OthersKeptTwice(kg, joined, t, id);
    t := FinallyPruned(kg, t, project, id);
  }

  method FinallyPruned(ghost kg: Kg, t: Kg, project: Project, ghost id: MemoryId) returns (u: Kg)
    requires Linked(t) && OrphansOnlyIn(t, project) && OthersKept(kg, t, id)
    ensures u == Pruned(t, project) && Linked(u) && NoOrphans(u) && OthersKept(kg, u, id) && KgOf(u, id) == KgOf(t, id)
  {
    PruneKeepsShares(t, project);
    PruneLeavesNoOrphans(t, project);
    u := Pruned(t, project);
    hide KgOf;
    assert OthersKept(t, u, id);
    OthersKeptTwice(kg, t, u, id);
  }

  // ----- Two tables with the same shares -----

  /**
    Entities are exactly the members of some memory, so tables with equal shares have the same entities up to their
    ids.
   */
  lemma SameSharesSameEntities(kg: Kg, t: Kg, e: EntityId)
    requires Linked(kg) && Linked(t) && NoOrphans(kg) && (forall id :: KgOf(kg, id) == KgOf(t, id)) && e in kg.entities
    ensures exists f :: f in t.entities && t.entities[f] == kg.entities[e]
    ensures forall f, g ::
              f in t.entities && g in t.entities && t.entities[f] == kg.entities[e] == t.entities[g] ==>
                f == g
  {
    assert HasMember(kg, e);
    var x :| x in kg.memberships && x.1 == e;
    assert kg.entities[e] in MembersOf(kg, x.0);
    assert KgOf(kg, x.0).members == KgOf(t, x.0).members;
  }
}
