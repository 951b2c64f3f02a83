/** `prepareMutation`: what each maintenance action makes of the memories it is given. */
module Mutations {
  import opened Base
  import opened Markdown

  type RevisionId = int

  const DAY_MS := 24 * 60 * 60 * 1000

  datatype ReviewDays = ReviewDays(project: int, reference: int, user: int, feedback: int, sessionArchive: int)

  datatype Settings = Settings(enabled: bool, days: ReviewDays, version: nat)

  const DEFAULT_SETTINGS := Settings(false, ReviewDays(90, 180, 365, 365, 90), 0)

  datatype Patch = Patch(description: Option<int>, body: Option<string>, tags: Option<seq<Name>>,
                         links: Option<seq<Name>>,
                         supersedes: Option<seq<Name>>, entities: Option<seq<Entity>>, triples: Option<seq<Triple>>)

  datatype SaveInput = SaveInput(name: Name, description: int, kind: Kind, body: string, tags: seq<Name>,
                                 links: seq<Name>,
                                 supersedes: seq<Name>, entities: seq<Entity>, triples: seq<Triple>)

  datatype ReviewState = Confirmed | Ambiguous | FetchFailed

  datatype Action =
    | Review(memoryId: MemoryId, state: ReviewState, next: Time, sources: Option<int>)
    | Patching(memoryId: MemoryId, patch: Patch, sources: Option<int>)
    | Archive(memoryId: MemoryId, reason: int)
    | Merge(target: MemoryId, source: MemoryId, patch: Patch, sources: Option<int>, reason: int)
    | PruneLinks(memoryId: MemoryId, names: seq<Name>)
    | Restore(memoryId: MemoryId, revision: RevisionId)
    | Create(input: SaveInput)

  /** What the pure code takes from outside: a fresh id, and the provenance that a body gives rise to. */
  datatype Outside = Outside(freshId: MemoryId, provenance: (string, Time) -> int)

  const AUTOMATED := 1

  /** `mutationMemoryIds`. */
  function MemoryIds(a: Action): (ids: seq<MemoryId>)
    ensures Distinct(ids)
  {
    match a
    case Create(_) => []
    case Merge(target, source, _, _, _) => if target == source then [target] else [target, source]
    case _ => [a.memoryId]
  }

  function ReviewPeriod(kind: Kind, days: ReviewDays): int {
    match kind
    case Session => days.sessionArchive
    case Project => days.project
    case Reference => days.reference
    case User => days.user
    case Feedback => days.feedback
  }

  function NextReview(kind: Kind, now: Time, settings: Settings): Time {
    now + ReviewPeriod(kind, settings.days) * DAY_MS
  }

  function Or<T>(o: Option<T>, otherwise: T): T { if o.Some? then o.value else otherwise }

  function OrElse<T>(o: Option<T>, otherwise: Option<T>): Option<T> { if o.Some? then o else otherwise }

  predicate ContentChanged(current: Memory, p: Patch) {
    (p.body.Some? && p.body.value != current.body)
      || (p.description.Some? && p.description.value != current.description)
  }

  function WithPatch(current: Memory, p: Patch, now: Time, settings: Settings, outside: Outside): Memory {
    var changed := ContentChanged(current, p);
    current.(description := Or(p.description, current.description),
             body := Or(p.body, current.body),
             tags := Or(p.tags, current.tags),
             links := Or(p.links, current.links),
             supersedes := Or(p.supersedes, current.supersedes),
             entities := Or(p.entities, current.entities),
             triples := Or(p.triples, current.triples),
             sources := if p.body.Some? && p.body.value != current.body
                        then outside.provenance(p.body.value, now) else current.sources,
             lastReviewed := if changed then Some(now) else current.lastReviewed,
             nextReview := if changed then Some(NextReview(current.kind, now, settings)) else current.nextReview,
             status := OrElse(current.status, Some(Active)),
             updatedAt := now)
  }

  function Created(input: SaveInput, now: Time, settings: Settings, outside: Outside): Memory {
    Memory(outside.freshId, input.name, input.description, input.kind, input.body, input.tags, input.links,
           input.supersedes, input.entities, input.triples, outside.provenance(input.body, now),
           Some(now), Some(NextReview(input.kind, now, settings)), Some(Active), None, None, None, now, now)
  }

  function Archiving(m: Memory, reason: ArchiveReason, now: Time): Memory {
    m.(status := Some(Archived), archivedAt := Some(now), archiveReason := Some(reason), archivedBy := Some(AUTOMATED),
       updatedAt := now)
  }

  function Without(links: seq<Name>, names: seq<Name>): (kept: seq<Name>)
    ensures forall n :: n in kept <==> n in links && n !in names
  {
    if links == [] then []
    else
      var n := |links| - 1;
      assert links == links[..n] + [links[n]];
      Without(links[..n], names) + if links[n] in names then [] else [links[n]]
  }

  /** A restore keeps who the memory is now and clears its archive fields; everything else comes from the revision. */
  function Restoring(current: Memory, revision: Memory, now: Time): Memory {
    revision.(id := current.id, name := current.name, createdAt := current.createdAt, updatedAt := now,
    status := Some(Active), archivedAt := None, archiveReason := None, archivedBy := None)
  }

  function WithSources(m: Memory, sources: Option<int>): Memory { m.(sources := Or(sources, m.sources)) }

  /** `prepareMutation`; nothing where it throws. */
  function Prepare(a: Action, now: Time, current: map<MemoryId, Memory>, settings: Settings, restored: Option<Memory>,
                   outside: Outside): Option<seq<Memory>> {
    match a
    case Create(input) => Some([Created(input, now, settings, outside)])
    case Merge(target, source, patch, sources, reason) =>
      if target !in current || source !in current || current[target].id == current[source].id then None
      else Some([WithSources(WithPatch(current[target], patch, now, settings, outside), sources),
                 Archiving(current[source], MergedInto(current[target].id, reason), now)])
    case Review(id, state, next, sources) =>
      if id !in current then None
      else
        var m := WithSources(current[id], sources);
        Some([m.(lastReviewed := if state.FetchFailed? then m.lastReviewed else Some(now), nextReview := Some(next),
                 updatedAt := now)])
    case Patching(id, patch, sources) =>
      if id !in current then None
      else Some([WithSources(WithPatch(current[id], patch, now, settings, outside), sources)])
    case Archive(id, reason) => if id !in current then None else Some([Archiving(current[id], Plain(reason), now)])
    case PruneLinks(id, names) =>
      if id !in current then None
        else Some([current[id].(links := Without(current[id].links, names), updatedAt := now)])
    case Restore(id, _) =>
      if id !in current || restored.None? then None else Some([Restoring(current[id], restored.value, now)])
  }

  ghost predicate NewMemory(name: Name, id: MemoryId, after: seq<Memory>) {
    |after| == 1 && after[0].id == id && after[0].name == name
  }

  /**
    One prepared memory for each memory named, with the id, name and creation time that one had; no id occurs twice.
   */
  ghost predicate SameMemories(ids: seq<MemoryId>, current: map<MemoryId, Memory>, after: seq<Memory>) {
    && |after| == |ids| && (forall i :: 0 <= i < |after| ==> KeepsIdentity(ids[i], current, after[i]))
    && forall i, j :: 0 <= i < j < |after| ==> after[i].id != after[j].id
  }

  ghost predicate KeepsIdentity(id: MemoryId, current: map<MemoryId, Memory>, m: Memory) {
    id in current && m.id == current[id].id && m.name == current[id].name && m.createdAt == current[id].createdAt
  }

  /**
    The memories prepared for an action are the ones it names, in their order, each under its own name; only a creation
    makes a new one.
   */
  lemma PreparedMemories(a: Action, now: Time, current: map<MemoryId, Memory>, settings: Settings,
                         restored: Option<Memory>, outside: Outside)
    requires Prepare(a, now, current, settings, restored, outside).Some?
    ensures a.Create?
            ==> NewMemory(a.input.name, outside.freshId, Prepare(a, now, current, settings, restored, outside).value)
    ensures !a.Create?
            ==> SameMemories(MemoryIds(a), current, Prepare(a, now, current, settings, restored, outside).value)
  {
  }

  // ----- What each action does to the memories it is given -----

  /** The memories an action names: the two of a merge, none for a creation, and the one of any other action. */
  lemma MemoryIdsAre(a: Action)
    ensures a.Create? ==> MemoryIds(a) == []
    ensures a.Merge? && a.target != a.source ==> MemoryIds(a) == [a.target, a.source]
    ensures a.Merge? && a.target == a.source ==> MemoryIds(a) == [a.target]
    ensures !a.Create? && !a.Merge? ==> MemoryIds(a) == [a.memoryId]
  {
  }

  /** The same memory with the same content and review dates: only updating time and lifecycle may differ. */
  ghost predicate SameContent(m: Memory, r: Memory) {
    && r.id == m.id && r.name == m.name && r.description == m.description && r.kind == m.kind && r.body == m.body
    && r.tags == m.tags && r.links == m.links && r.supersedes == m.supersedes && r.entities == m.entities
    && r.triples == m.triples && r.sources == m.sources && r.lastReviewed == m.lastReviewed
    && r.nextReview == m.nextReview && r.createdAt == m.createdAt
  }

  ghost predicate SameLifecycle(m: Memory, r: Memory) {
    && r.status == m.status && r.archivedAt == m.archivedAt && r.archiveReason == m.archiveReason
    && r.archivedBy == m.archivedBy
  }

  /** The memory is archived, now and for the given reason, and is otherwise what it was. */
  ghost predicate ArchivedAs(m: Memory, r: Memory, reason: ArchiveReason, now: Time) {
    && SameContent(m, r) && r.status == Some(Archived) && !IsActive(r)
    && r.archivedAt == Some(now) && r.archiveReason == Some(reason) && r.archivedBy == Some(AUTOMATED)
    && r.updatedAt == now
  }

  /** A given value was taken, an absent one left the old value. */
  ghost predicate Takes<T(!new)>(given: Option<T>, before: T, after: T) {
    (given.Some? ==> after == given.value) && (given.None? ==> after == before)
  }

  /** How long a memory of the kind goes unreviewed under the settings, in days. */
  ghost function ReviewDaysOf(kind: Kind, settings: Settings): int {
    if kind == Session then settings.days.sessionArchive
    else if kind == Project then settings.days.project
    else if kind == Reference then settings.days.reference
    else if kind == User then settings.days.user
    else settings.days.feedback
  }

  /**
    The memory carries the patch: each given field has the given value and each absent one the old, the review dates
    move exactly if body or description really change, and identity and archive fields stay.
   */
  ghost predicate CarriesPatch(m: Memory, r: Memory, p: Patch, sources: Option<int>, now: Time, settings: Settings,
                               outside: Outside)
  {
    && r.id == m.id && r.name == m.name && r.kind == m.kind && r.createdAt == m.createdAt && r.updatedAt == now
    && Takes(p.description, m.description, r.description) && Takes(p.body, m.body, r.body)
    && Takes(p.tags, m.tags, r.tags) && Takes(p.links, m.links, r.links)
       && Takes(p.supersedes, m.supersedes, r.supersedes)
    && Takes(p.entities, m.entities, r.entities) && Takes(p.triples, m.triples, r.triples)
    && (if r.body != m.body || r.description != m.description
        then r.lastReviewed == Some(now)
             && r.nextReview == Some(now + ReviewDaysOf(m.kind, settings) * 86_400_000)
        else r.lastReviewed == m.lastReviewed && r.nextReview == m.nextReview)
    && (if sources.Some? then r.sources == sources.value
        else if r.body != m.body then r.sources == outside.provenance(r.body, now)
        else r.sources == m.sources)
    && (m.status.Some? ==> r.status == m.status) && (m.status.None? ==> r.status == Some(Active))
    && r.archivedAt == m.archivedAt && r.archiveReason == m.archiveReason && r.archivedBy == m.archivedBy
  }

  /**
    Preparing throws exactly if a memory named was not read, a merge names one memory twice, or no revision was read.
   */
  lemma PrepareThrowsIff(a: Action, now: Time, current: map<MemoryId, Memory>, settings: Settings,
                         restored: Option<Memory>, outside: Outside)
    ensures Prepare(a, now, current, settings, restored, outside).None?
            <==> || (a.Merge? && (a.target !in current || a.source !in current
                                  || current[a.target].id == current[a.source].id))
                 || (!a.Merge? && !a.Create? && a.memoryId !in current)
                 || (a.Restore? && restored.None?)
  {
  }

  /** An archived memory is archived for the given reason. */
  lemma PreparedArchive(a: Action, now: Time, current: map<MemoryId, Memory>, settings: Settings,
                        restored: Option<Memory>, outside: Outside)
    requires a.Archive? && Prepare(a, now, current, settings, restored, outside).Some?
    ensures var after := Prepare(a, now, current, settings, restored, outside).value;
            |after| == 1 && ArchivedAs(current[a.memoryId], after[0], Plain(a.reason), now)
  {
  }

  lemma PatchedCarries(m: Memory, p: Patch, sources: Option<int>, now: Time, settings: Settings, outside: Outside)
    ensures CarriesPatch(m, WithSources(WithPatch(m, p, now, settings, outside), sources), p, sources, now, settings,
                         outside)
  {
  }

  /** A patched memory carries the patch. */
  lemma PreparedPatch(a: Action, now: Time, current: map<MemoryId, Memory>, settings: Settings,
                      restored: Option<Memory>, outside: Outside)
    requires a.Patching? && Prepare(a, now, current, settings, restored, outside).Some?
    ensures var after := Prepare(a, now, current, settings, restored, outside).value;
            |after| == 1 && CarriesPatch(current[a.memoryId], after[0], a.patch, a.sources, now, settings, outside)
  {
    PatchedCarries(current[a.memoryId], a.patch, a.sources, now, settings, outside);
  }

  /** Of two merged memories the target carries the patch, and the source is archived as merged into the target. */
  lemma PreparedMerge(a: Action, now: Time, current: map<MemoryId, Memory>, settings: Settings,
                      restored: Option<Memory>, outside: Outside)
    requires a.Merge? && Prepare(a, now, current, settings, restored, outside).Some?
    ensures var after := Prepare(a, now, current, settings, restored, outside).value;
            && |after| == 2
            && CarriesPatch(current[a.target], after[0], a.patch, a.sources, now, settings, outside)
            && ArchivedAs(current[a.source], after[1], MergedInto(current[a.target].id, a.reason), now)
  {
    hide CarriesPatch, WithPatch, WithSources;
    PatchedCarries(current[a.target], a.patch, a.sources, now, settings, outside);
  }

  lemma PreparedReview(a: Action, now: Time, current: map<MemoryId, Memory>, settings: Settings,
                       restored: Option<Memory>, outside: Outside)
    requires a.Review? && Prepare(a, now, current, settings, restored, outside).Some?
    ensures var m, r := current[a.memoryId], Prepare(a, now, current, settings, restored, outside).value[0];
            && SameLifecycle(m, r) && r.updatedAt == now && r.nextReview == Some(a.next)
            && r.lastReviewed == (if a.state == Confirmed || a.state == Ambiguous then Some(now) else m.lastReviewed)
            && Takes(a.sources, m.sources, r.sources)
            && SameContent(m, r.(lastReviewed := m.lastReviewed, nextReview := m.nextReview, sources := m.sources))
  {
  }

  lemma PreparedPrune(a: Action, now: Time, current: map<MemoryId, Memory>, settings: Settings,
                      restored: Option<Memory>, outside: Outside)
    requires a.PruneLinks? && Prepare(a, now, current, settings, restored, outside).Some?
    ensures var m, r := current[a.memoryId], Prepare(a, now, current, settings, restored, outside).value[0];
            && SameLifecycle(m, r) && r.updatedAt == now && SameContent(m, r.(links := m.links))
            && (forall n :: n in r.links <==> n in m.links && n !in a.names)
            && (forall n :: multiset(r.links)[n] == if n in a.names then 0 else multiset(m.links)[n])
            && InOrder(r.links, m.links)
  {
    WithoutCounts(current[a.memoryId].links, a.names);
    WithoutInOrder(current[a.memoryId].links, a.names);
  }

  /** The shorter list comes out of the longer by leaving items out: the order stays. */
  ghost predicate InOrder(kept: seq<Name>, all: seq<Name>) {
    if kept == [] then true
    else if all == [] then false
    else if kept[|kept| - 1] == all[|all| - 1] then InOrder(kept[..|kept| - 1], all[..|all| - 1])
    else InOrder(kept, all[..|all| - 1])
  }

  lemma {:induction false} WithoutCounts(links: seq<Name>, names: seq<Name>)
    ensures forall n :: multiset(Without(links, names))[n] == if n in names then 0 else multiset(links)[n]
  {
    if links != [] {
      var k := |links| - 1;
      assert links == links[..k] + [links[k]];
      WithoutCounts(links[..k], names);
    }
  }

  lemma {:induction false} WithoutInOrder(links: seq<Name>, names: seq<Name>)
    ensures InOrder(Without(links, names), links)
  {
    if links != [] {
      var k := |links| - 1;
      var rest := Without(links[..k], names);
      WithoutInOrder(links[..k], names);
      if rest != [] { assert rest[|rest| - 1] in rest && rest[|rest| - 1] !in names; }
      assert (rest + [links[k]])[..|rest|] == rest;
      assert Without(links, names) == rest + if links[k] in names then [] else [links[k]];
      if links[k] in names { assert Without(links, names) == rest; }
    }
  }

  /** A restored memory is active, without archive fields, and has its identity of now and its content of then. */
  lemma PreparedRestore(a: Action, now: Time, current: map<MemoryId, Memory>, settings: Settings,
                        restored: Option<Memory>, outside: Outside)
    requires a.Restore? && Prepare(a, now, current, settings, restored, outside).Some?
    ensures var m, r := current[a.memoryId], Prepare(a, now, current, settings, restored, outside).value[0];
            && r.id == m.id && r.name == m.name && r.createdAt == m.createdAt && r.updatedAt == now
            && r.status == Some(Active) && r.archivedAt.None? && r.archiveReason.None? && r.archivedBy.None?
            && SameContent(restored.value,
                           r.(id := restored.value.id, name := restored.value.name,
                              createdAt := restored.value.createdAt))
  {
  }

  /**
    A created memory is active, has the fresh id and the given content, and is due for review after its kind's period.
   */
  lemma PreparedCreation(a: Action, now: Time, current: map<MemoryId, Memory>, settings: Settings,
                         restored: Option<Memory>, outside: Outside)
    requires a.Create?
    ensures var r := Prepare(a, now, current, settings, restored, outside).value[0];
            && r.id == outside.freshId && r.name == a.input.name && r.description == a.input.description
            && r.kind == a.input.kind && r.body == a.input.body && r.tags == a.input.tags && r.links == a.input.links
            && r.supersedes == a.input.supersedes && r.entities == a.input.entities && r.triples == a.input.triples
            && r.sources == outside.provenance(a.input.body, now) && r.createdAt == now && r.updatedAt == now
            && r.status == Some(Active) && r.archivedAt.None? && r.archiveReason.None? && r.archivedBy.None?
            && r.lastReviewed == Some(now)
            && r.nextReview == Some(now + ReviewDaysOf(a.input.kind, settings) * 86_400_000)
  {
  }

  /** Everything a restored archive may differ in: when it was updated and the lifecycle fields. */
  ghost predicate SameButLifecycle(m: Memory, r: Memory) {
    r == m.(updatedAt := r.updatedAt, status := Some(Active), archivedAt := None, archiveReason := None,
            archivedBy := None)
  }

  /**
    Archiving and restoring through the texts: the memory archived is read from its text, the restore reads that same
    text back as the revision, and what is finally stored reads back as the memory before, except for its lifecycle.
   */
  lemma RestoreUndoesArchive(before: Text, reason: ArchiveReason, archivedAt: Time, restoredAt: Time)
    ensures var m := Parse(before);
            var archived := Parse(Serialize(Archiving(m, reason, archivedAt)));
            var r := Parse(Serialize(Restoring(archived, Parse(before), restoredAt)));
            SameButLifecycle(m, r) && r.updatedAt == restoredAt
  {
    var m := Parse(before);
    ParsedIsNormal(before);
    ParseSerialize(Archiving(m, reason, archivedAt));
    ParseSerialize(Restoring(Parse(Serialize(Archiving(m, reason, archivedAt))), m, restoredAt));
  }

  /** A merge of a memory with itself is refused before anything is written. */
  lemma NoSelfMerge(id: MemoryId, patch: Patch, sources: Option<int>, reason: int, now: Time,
                    current: map<MemoryId, Memory>, settings: Settings, restored: Option<Memory>, outside: Outside)
    ensures Prepare(Merge(id, id, patch, sources, reason), now, current, settings, restored, outside).None?
  {
  }
}
