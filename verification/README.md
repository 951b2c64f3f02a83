# A verified model of the memory store

This project models a Markdown-canonical memory store and proves properties of it. Memories live in Markdown files, or in
content-addressed objects in cloud mode; SQL tables, search and a knowledge graph are derived from them; maintenance
mutations change them under optimistic hashes; a curation protocol lists them run by run behind a persistent cursor; and an
OAuth server guards access. Check the whole project with `dafny verify dfyconfig.toml`.

## How the model is laid out

| files | part |
|---|---|
| `CurationStore`, `CurationInvariants`, `CurationListing`, `CurationProtocol`, `CurationFirestore`, `CurationRemote`, `CurationLaws` | the shared-curation run protocol: the SQLite store, what its transactions keep, keyset paging with the halving loop, all interleavings of many runs with the memories changing underneath, and the Firestore backend as a refinement, with what remains of the end-to-end theorem when saves become visible late; what each transaction accepts and writes, and that a finished run advances |
| `Markdown`, `Mutations`, `LocalMutation`, `LocalMutationRuns`, `LocalMutationLaws` | texts and their normal form, `prepareMutation`, the local mutation saga with its rollback, and whole runs of it with saves, renames and unlocked settings writes in between; exactly when a mutation is applied and what it leaves |
| `KnowledgeGraph`, `MemoryIndex`, `IndexLaws` | the derived tables kept up to date step by step, and the rebuild from the files that they equal, column by column |
| `MetadataStore`, `MetadataInvariants`, `MetadataLaws` | the Firestore metadata of a project: document transactions, the name index and the compensations; what each transaction decides and writes |
| `CloudPointers`, `CloudMemory`, `CloudLaws` | the cloud sagas over objects, metadata and cache, with every fallible call's outcome a parameter and every intermediate world recorded |
| `Sums`, `PprTheory`, `PprLaws`, `PprFixpoint`, `Ppr` | personalised PageRank over the reals: the theory of the iteration and the loop that computes it |
| `OAuthStore`, `OAuthProtocol`, `OAuthService` | authorization codes, grants and refresh-token families (RFC 6749 sections 4.1.2 and 6, RFC 9700 section 4.14, RFC 7009 section 2) |
| `KeyedMutex`, `Related`, `Rrf` | the promise-chain mutex, the depth-bounded search over links, and reciprocal-rank fusion |

What the source updates in place is a class whose methods are proved against functions on its state; the properties of those
functions are lemmas. Where a step of the source can fail, the failure is a parameter (`faults`, `works`, `indexUp`), so
a contract speaks of every combination of failures.

## What is taken as given

- Times are integers, and the clock never goes back. Hashes are injective: `Sha256(text)` is the text in a box. Generated ids and secrets are fresh.
- A database or document transaction is atomic. `INSERT` fails on a violated primary key or unique index, as in `schema.sql`.
- A text stands for the memory written into it; parsing strips line breaks around the body and makes the status explicit, and keeps all else.
- Memory names are lower-case slugs and ids upper-case, so no text is both; names are unique in a project, as in `schema.sql`.
- Scores and ranks are reals.
- Within one project the lock admits one local or cloud operation at a time; settings and link observations do not take it, and curation runs interleave freely.

## Where the code falls short of its promise

- The incremental index equals the rebuilt one only for bodies without line breaks around them: `save` and `update` index the body as given, a rebuild the stripped one (`src/lib/markdown/frontmatter.ts:84`). `MemoryIndex.LocalMemoryIndex.Save` and `Update` state this as an equivalence, `MemoryIndex.TrailingNewlineIsNotNormal` gives a body.
- A cloud mutation whose commit took effect can lose the objects it wrote: if an exception follows and the look-up in the catch block fails too, the failure counts as "not committed" (`src/lib/memory/cloud-service.ts:1146`) and the clean-up removes them. `CloudMemory.CloudMemoryService.ApplyMutation` states exactly when, `CloudMemory.LostCommitBreaksPointer` is a call in which it happens.
- A cloud rename whose first write fails cleans up its key even if the object was there before (`src/lib/memory/cloud-service.ts:707-732`), and if the record already points at it, that breaks the pointer. `CloudMemory.CloudMemoryService.Rename` states exactly when; it takes a rename whose undo was lost and a retry with the same timestamp, as in `CloudMemory.RenameTwice` and `CloudMemory.RetriedRenameBreaksPointer`.
- A local mutation looks its memories up by id or name (`src/lib/memory/service.ts:695`) but keeps what it read under the text it was given. Named by its name, a memory counts as new: the commit answers conflict, and the rollback removes its file. `LocalMutationRuns.UnappliedChangesNothingIff` states exactly when, `LocalMutationRuns.UnappliedChangesNothing` gives the guard (the restore route takes the id from its request, but goes on only if there are revisions under that id, `src/app/api/projects/[id]/maintenance/restore/route.ts:68-69`), `LocalMutationRuns.ArchiveByNameLosesFile` is such a request.
- A cloud save reads the clock before it awaits the object store, so its row can appear behind a cursor that has passed its creation time: `CurationRemote.LateSaveIsPassed`. `CurationRemote.RemoteCursorPassesExactly` says exactly which memories are passed over.
- Paging a curation window fails for good once one active memory is too large for a page: `CurationListing.PagingSucceedsIff`, with a case in `CurationListing.OversizeMemoryStopsPaging`.
- A rename whose undo failed leaves its cache row under the old name while the record has the new one (`src/lib/memory/cloud-service.ts:773-779`), and it stays so until the cache is rebuilt. An update or another rename through that row leaves a stale name behind, so that two names lead to one memory: `CloudMemory.StaleUpdateBreaksIndex`, `CloudMemory.StaleRenameBreaksIndex`. `CloudMemory.CloudMemoryService.Update` and `Rename` state exactly when, and so does `MetadataInvariants.RunKeepsIndexIff` over sequences of calls; the guard is that the cache row carries the recorded name.
- A local rename rewrites references in files name by name but merges them in the link rows, and does not rewrite the renamed memory's own file (`src/lib/memory/service.ts:511-537`). A memory that linked to both names then repeats a link in its file, and a rebuild skips it: `LocalMutationLaws.RenamedLinksAgreeIff` says exactly when rows and file agree, `IndexLaws.RefusedIff` what a rebuild skips.
- A restore that finds its memory deleted brings it back if a tombstone for the restored key exists, even if another writer deleted it: `MetadataInvariants.RestoreIsGuarded` says exactly when, `MetadataInvariants.RestoreBringsBackDeleted` is a case.

## Model

| member | source | states |
|---|---|---|
| CurationStore.LocalCurationStore.Begin | src/lib/curation/local-store.ts:98-121 | A new run is stored with the cursor as its missing lower bound and as `cursor_before`; the shared scope, dry runs and empty windows are refused and change nothing. |
| CurationStore.LocalCurationStore.SavePage | src/lib/curation/local-store.ts:228-261 | The new store is the one `PageSaved` describes: only an open run takes a page, in order, chained to its predecessor and within limits; a repeated equal page changes nothing; every refusal changes nothing. |
| CurationStore.LocalCurationStore.RecordOutcomes | src/lib/curation/local-store.ts:263-286 | Outcomes are accepted exactly when they are a permutation of the page items without repetition; the page is closed once, and a different repetition is refused. |
| CurationStore.LocalCurationStore.CompleteRun | src/lib/curation/local-store.ts:288-311 | The method computes `Completed`: the cursor moves by compare-and-set for scheduled runs alone, and the reported cursor and flag are the stored ones; `CurationLaws.CompletionIs` says exactly when. |
| CurationStore.AllDistinct | src/lib/curation/local-store.ts:271-274 | The set-size comparison decides that no id occurs twice. |
| CurationInvariants.StepKeepsManifests | src/lib/curation/local-store.ts:98-311 | Every transaction of every run keeps every manifest: pages 0 to n-1 exist and chain from null, only the last closes the snapshot, the done counter counts the pages with outcomes, outcomes permute the items, a complete run is all done. |
| CurationInvariants.StepNamesOneRun | src/lib/curation/local-store.ts:98-311 | A transaction that changes anything is about one run; every other run and its pages stay as they are. |
| CurationInvariants.CompleteRunIsFrozen | src/lib/curation/local-store.ts:228-311 | After completion no transaction changes the run or its pages, all its pages have outcomes, and completing it again changes nothing at all. |
| CurationInvariants.PagesAreKept | src/lib/curation/local-store.ts:228-286 | No transaction changes or drops a saved page; outcomes once recorded stay. |
| CurationInvariants.StepKeepsTiling | src/lib/curation/local-store.ts:98-311 | Every transaction keeps the windows of advanced runs pairwise disjoint, below the cursor and covering everything below it. |
| CurationInvariants.AdvanceKeepsTiling | src/lib/curation/local-store.ts:288-311 | The step that moves the cursor extends the tiling by exactly the window of the completed run. |
| CurationInvariants.CursorOnlyAdvances | src/lib/curation/local-store.ts:297-308 | A cursor changes only when a scheduled run that started from it completes; then it strictly increases to the end of that run's window. |
| CurationInvariants.SameStartNeverBothAdvance | src/lib/curation/local-store.ts:297-308 | Two runs of a project with the same `cursor_before` never both advance. |
| CurationInvariants.ExactlyOneWindow | src/lib/curation/local-store.ts:98-311 | An instant lies in the window of an advanced run if and only if it is below the cursor, and then of exactly one. |
| CurationListing.Sorted | src/lib/memory/service.ts:247-253 | The query's order: the rows, each once, ascending by creation time and id. |
| CurationListing.AscendingUnique | src/lib/memory/service.ts:247-253 | There is only one such order, so a listing is determined by the rows. |
| CurationListing.WindowPage | src/lib/curation/service.ts:165-204 | The halving loop terminates and returns the page at the limit it settles on, or fails if one memory alone is too large. |
| CurationListing.ListingSplitsRows | src/lib/memory/service.ts:239-269 | One keyset page and what follows its key are exactly the active remaining rows, though archived rows are filtered out after the page is cut. |
| CurationListing.PagesCoverExactly | src/lib/curation/service.ts:165-204 | Following `next_after` terminates and the pages concatenate to the active memories of the window in order, without gap or repeat, each page within the item and byte limits. |
| CurationListing.PagingSucceedsIff | src/lib/curation/service.ts:193-204 | Paging to the end succeeds if and only if every active memory of the window fits on a page by itself. |
| CurationListing.OversizeMemoryStopsPaging | src/lib/curation/service.ts:193-204 | A concrete memory, alone in its window and too large for a page, on which paging fails. |
| CurationListing.NextPageIsShorter | src/lib/curation/service.ts:190-203 | Each page leaves strictly fewer rows for the next one: the termination measure of paging. |
| CurationProtocol.ParsedWindow | src/lib/curation/window.ts:24-35 | A parsed window is never empty; a scheduled one ends now and leaves its start to the cursor. |
| CurationProtocol.StepKeepsInv | src/lib/curation/service.ts:101-236 | Clock ticks, saves that may become visible late, archivals, page computations at any later time and store transactions of any number of runs all keep: a scheduled page lists every memory in its key range that was active throughout and there when the run began, and nothing outside it. |
| CurationProtocol.ListedOnce | src/lib/curation/service.ts:190-236 | No two window pages of a run list the same memory. |
| CurationProtocol.SteadyMemoryIsListed | src/lib/curation/service.ts:190-236 | A scheduled run whose snapshot is closed has listed every memory of its window that was active throughout and there when the run began. |
| CurationProtocol.SteadyMemoryIsAccountedFor | src/lib/curation/service.ts:101-236 | A memory inserted before its covering run began and active until it completed is listed by exactly one window page of the run, with exactly one outcome, for ever after. |
| CurationProtocol.CursorPassesNothingInserted | src/lib/curation/local-store.ts:98-311 | With saves that may become visible late: a memory created before the cursor lies in the window of exactly one advanced scheduled run, and if it was inserted before that run began and stayed active until it completed, in exactly one page with exactly one outcome. |
| CurationProtocol.PromptIsThereFromTheStart | src/lib/memory/service.ts:165-212 | A memory whose row is inserted as soon as its creation time was read is there before any scheduled run begins whose window covers that time. |
| CurationProtocol.ComputedPageListsIff | src/lib/curation/service.ts:190-204 | A window page lists, of the memories there when it is computed, exactly the active ones of its window and key range. |
| CurationProtocol.AccountedForIff | src/lib/curation/service.ts:101-236 | The key of a memory of a completed run's window lies in exactly one window page of the run, computed in some step before; if the memory was active whenever it was there, it is in exactly one page with exactly one outcome if and only if it was there when that page was computed. |
| CurationProtocol.CursorPassesExactly | src/lib/curation/local-store.ts:98-311 | End-to-end, exactly: a memory created before the cursor lies in the window of exactly one advanced scheduled run, and if it was active whenever it was there until that run completed, the run accounts for it if and only if it was there when the page that holds its key was computed. |
| CurationProtocol.CursorPassesNothing | src/lib/curation/local-store.ts:98-311 | End-to-end safety in every interleaving of local mode: a memory created before the cursor lies in the window of exactly one advanced scheduled run, and if it stayed active until that run completed, in exactly one page with exactly one outcome. |
| CurationFirestore.FirestoreCurationStore.Begin | src/lib/curation/firestore-store.ts:123-159 | The document transaction begins a run exactly as the SQLite one does. |
| CurationFirestore.FirestoreCurationStore.SavePage | src/lib/curation/firestore-store.ts:259-296 | The document transaction computes `PageSavedRemotely`; a refusal writes nothing. |
| CurationFirestore.FirestoreCurationStore.RecordOutcomes | src/lib/curation/firestore-store.ts:298-317 | The document transaction computes `OutcomesRecordedRemotely`; a refusal writes nothing. |
| CurationFirestore.FirestoreCurationStore.CompleteRun | src/lib/curation/firestore-store.ts:319-347 | The document transaction computes `Completed`, as the SQLite one does, at every time; `CurationLaws.CompletionIs` says what that is. |
| CurationFirestore.SaveRefines | src/lib/curation/firestore-store.ts:259-296 | The backends accept the same pages except, exactly, that Firestore refuses repeated ids and accepts the repetition of a stored page after closing; an accepted change is the same change. |
| CurationFirestore.RecordRefines | src/lib/curation/firestore-store.ts:298-317 | Firestore accepts outcomes if and only if SQLite does and the reason codes are well formed; the effect is the same. |
| CurationFirestore.RemoteStepKeepsInvariants | src/lib/curation/firestore-store.ts:123-347 | So every Firestore transaction is one of SQLite's or changes nothing, and keeps the manifests and the tiling. |
| CurationFirestore.RemoteRunKeepsInvariants | src/lib/curation/firestore-store.ts:123-347 | In every run of Firestore transactions the manifests are in order and the advanced windows tile the time below each cursor. |
| CurationRemote.RemoteTraceIsTrace | src/lib/curation/firestore-store.ts:123-347 | Every run of the service over the document transactions is a run of the system with possibly late saves. |
| CurationRemote.RemoteCursorPassesNothingInserted | src/lib/curation/firestore-store.ts:123-347 | End-to-end safety in cloud mode: a memory created before the cursor that appeared before its covering run began and stayed active until it completed is in exactly one page of that run, with exactly one outcome. |
| CurationRemote.RemoteCursorPassesExactly | src/lib/curation/firestore-store.ts:123-347 | End-to-end in cloud mode, exactly: the covering run accounts for a steady memory if and only if it was there when the page that holds its key was computed. |
| CurationRemote.LateSaveIsPassed | src/lib/memory/cloud-service.ts:297-330 | A concrete run in cloud mode in which the cursor passes a memory that is active throughout and that no page lists: its row appeared after the run had completed. |
| CurationLaws.ParseIs | src/lib/curation/window.ts:24-35 | Exactly the requests without dates, and the manual ones with two ascending calendar days, give a window; it ends now, or has the two days as its bounds. |
| CurationLaws.SettledLimitIs | src/lib/curation/service.ts:190-200 | The halving loop settles on the largest of 25, 12, 6, 3 and 1 at which the listed page fits its bytes or holds at most one memory. |
| CurationLaws.BeginIs | src/lib/curation/local-store.ts:98-121 | Exactly a new run of an own project and a window that is not empty begins, running, with nothing saved, the cursor recorded and taken for a missing lower bound. |
| CurationLaws.SaveIs | src/lib/curation/local-store.ts:228-261 | Exactly the page of a running, open run that is next in order, chained to its predecessor, within 25 items of hex-digest hashes and without a repeated id is saved; a saved page is accepted again exactly if it is the same. |
| CurationLaws.RecordIs | src/lib/curation/local-store.ts:263-286 | A running run's page takes outcomes exactly if they are one for each of its memories, and later exactly the same ones again. |
| CurationLaws.CompletionIs | src/lib/curation/local-store.ts:288-311 | At whatever time: a running run whose snapshot is closed, with at least one page and all pages done, completes. It sets the cursor to the end of its window, and reports so, if and only if its mode is schedule, it is no dry run, and the cursor is the one it began with; else the cursors stay. |
| CurationLaws.FinishedRunAdvances | src/lib/curation/local-store.ts:288-311 | Over traces: a scheduled run with all pages done, whose cursor nobody has moved since it began, does advance when it is completed, at any later time. |
| CurationLaws.FinishedRunCanComplete | src/lib/curation/local-store.ts:288-311 | A finished run can be completed at any time. |
| CurationLaws.UndisturbedRunAdvances | src/lib/curation/service.ts:101-236 | From any state in which each memory due fits on a page there is a path of steps that begins a scheduled run, pages, records and completes it, and moves the cursor to the time it began. |
| CurationLaws.PagesHoldTheDue | src/lib/curation/service.ts:190-204 | The pages followed from the start hold exactly the active memories of the project created in the window, each once, in order of creation time and id. |
| CurationLaws.PagesSucceedIff | src/lib/curation/service.ts:193-204 | Following the pages succeeds if and only if each of those memories, encoded, takes at most 262,142 bytes. |
| Markdown.ParseSerialize | src/lib/markdown/frontmatter.ts:13-116 | Writing and reading a memory normalises it, no more: line breaks around the body go, the status becomes explicit. |
| Markdown.RoundTripsIffNormal | src/lib/markdown/frontmatter.ts:13-116 | A memory reads back as itself if and only if it is in normal form. |
| Markdown.ParsedIsNormal | src/lib/markdown/frontmatter.ts:57-116 | Whatever was read is in normal form. |
| Markdown.StripIs | src/lib/markdown/frontmatter.ts:84-84 | What is left of a body is its part from the first to the last character that is no line break. |
| Markdown.SerializeIs | src/lib/markdown/frontmatter.ts:13-41 | A text carries the memory as it is, except that its body is made to end in a line break. |
| Mutations.MemoryIds | src/lib/maintenance/mutations.ts:24-30 | The memories an action names, each once. |
| Mutations.Without | src/lib/maintenance/mutations.ts:124-128 | Pruning keeps exactly the links that were not named. |
| Mutations.PreparedMemories | src/lib/maintenance/mutations.ts:91-144 | The memories prepared for an action are the ones it names, in order, each with its id, name and creation time; only a creation makes a new one, under the requested name. |
| Mutations.RestoreUndoesArchive | src/lib/maintenance/mutations.ts:80-141 | Archiving a memory and restoring the text it had gives the memory back except for its lifecycle fields, through writing and reading at every stage. |
| Mutations.NoSelfMerge | src/lib/maintenance/mutations.ts:99-102 | Merging a memory with itself is refused before anything is written. |
| Mutations.MemoryIdsAre | src/lib/maintenance/mutations.ts:24-30 | A creation names no memory, a merge its target and source, any other action its one memory. |
| Mutations.PrepareThrowsIff | src/lib/maintenance/mutations.ts:98-130 | Preparing throws if and only if a named memory was not read, a merge names one memory twice, or the revision to restore was not read. |
| Mutations.PreparedArchive | src/lib/maintenance/mutations.ts:80-89 | The archived memory is inactive, its archive fields are the time, the reason and the agent, and nothing else but the update time has changed. |
| Mutations.PreparedPatch | src/lib/maintenance/mutations.ts:32-56 | Each field given has the value given, each absent one the value before; the review dates move, to now and now plus the period of the kind, exactly if body or description changed. |
| Mutations.PreparedMerge | src/lib/maintenance/mutations.ts:99-105 | The target carries the patch and the sources; the source is archived as merged into the target with the reason given or the default one. |
| Mutations.PreparedReview | src/lib/maintenance/mutations.ts:111-119 | The next review is the one requested, the last one is now exactly for a confirmed or ambiguous review, and nothing else changed but the sources given. |
| Mutations.PreparedPrune | src/lib/maintenance/mutations.ts:125-128 | Exactly the named links are gone, the others in their order, and nothing else changed but the update time. |
| Mutations.PreparedRestore | src/lib/maintenance/mutations.ts:129-141 | The restored memory has the content of the revision under the id, name and creation time of the memory now, is active and has no archive fields. |
| Mutations.PreparedCreation | src/lib/maintenance/mutations.ts:58-78 | A created memory is active, has a fresh id and the given content, and is due for review after the period of its kind. |
| LocalMutation.FindRow | src/lib/memory/service.ts:100-104 | A row is found by the id of its memory or by its name; one found under a key that is no id has that name. |
| LocalMutation.ReadAllIsExact | src/lib/memory/service.ts:694-708 | A read that succeeds has checked, for each key given, that the hash of the file of the row found by id or name, the row and the expected hash agree, and carries the text of that file. |
| LocalMutation.PlannedMemories | src/lib/memory/service.ts:684-728 | A mutation goes on only with the texts of exactly the memories it names and the memories prepared from them. |
| LocalMutation.PlannedRow | src/lib/memory/service.ts:694-728 | The i-th prepared memory is the one of the row found for the i-th key, under the id, name and file of that row. |
| LocalMutation.PlanIsSafe | src/lib/memory/service.ts:716-736 | What a mutation overwrites under the own id of a memory has been read in full, and no two of its memories share a file. |
| LocalMutation.MemoryService.WriteFiles | src/lib/memory/service.ts:733-756 | The write loop either writes every revision body and every new text, or stops at the failing write; for each file touched it has noted what the rollback will put there, which is nothing where the memory was not read under its own id. |
| LocalMutation.MemoryService.RollBack | src/lib/memory/service.ts:823-832 | From whatever point the writes stopped at, the rollback makes the files the ones that were noted. |
| LocalMutation.MemoryService.ApplyMutation | src/lib/memory/service.ts:684-832 | A whole call, step by step, does what `Mutated` says: everything, or nothing but what unlocked calls did in between and the removal of the files that the rollback takes for new ones. |
| LocalMutationRuns.UnappliedKeepsTables | src/lib/memory/service.ts:814-820 | Every call that answers conflict or already_applied, or throws, leaves all tables but the unlocked ones as found. |
| LocalMutationRuns.UnappliedChangesNothingIff | src/lib/memory/service.ts:814-832 | Such a call leaves files, revision bodies and tables as found if and only if its write loop did not get to a memory that the request named by its name. |
| LocalMutationRuns.UnappliedChangesNothing | src/lib/memory/service.ts:814-832 | With the guard that every id the action names is the id of a row or matches no row, every such call leaves files, revision bodies and tables as found. |
| LocalMutationRuns.ArchiveByNameLosesFile | src/lib/memory/service.ts:733-756 | A concrete request that archives a memory by its name: the answer is a conflict and the file of the memory is gone. |
| LocalMutationRuns.VersionsOnlyGrow | src/lib/maintenance/local-store.ts:75-92 | Settings versions only grow over any sequence of unlocked calls, and an unchanged version means unchanged settings. |
| LocalMutationRuns.AppliedUsedSettingsInForce | src/lib/maintenance/local-store.ts:210-215 | An applied mutation that states a settings version used exactly the settings in force at its commit; outside the shared scope only a restore may leave the version out. |
| LocalMutationRuns.AppliedSawExpectedHashes | src/lib/maintenance/local-store.ts:227-230 | An applied mutation saw, for exactly the memories it names, the expected hash in the file and in the index. |
| LocalMutationRuns.AppliedRow | src/lib/memory/service.ts:780-813 | The row of each memory of an applied mutation is the one of its new text; every other row stays. |
| LocalMutationRuns.AppliedRevision | src/lib/maintenance/local-store.ts:252-258 | An applied mutation adds, for each memory it changes, one revision row and body with the text it replaced, and touches no other revision. |
| LocalMutationRuns.AppliedFile | src/lib/memory/service.ts:734-756 | An applied mutation writes the new text of each memory to that memory's file and leaves every other memory file as it was. |
| LocalMutationRuns.MutationKeepsInv | src/lib/memory/service.ts:684-832 | A mutation keeps: each row's file is there with the recorded hash, id and name; names are distinct; each revision row names its body. |
| LocalMutationRuns.RenamedRow | src/lib/memory/service.ts:476-537 | A local rename gives the memory its new name and file, leaves the others where they are, and each row keeps the hash, id and creation time of its file. |
| LocalMutationRuns.RenameKeepsInv | src/lib/memory/service.ts:476-537 | A local rename keeps: each row's file is there with the recorded hash, id and name; names are distinct; every memory file belongs to a row. |
| LocalMutationRuns.RunKeepsInvIff | src/lib/memory/service.ts:165-537 | Up to a state of any run of saves, updates, forgets, renames, settings writes and mutations, the same has held throughout if and only if no call lost a file by naming a memory by its name. |
| LocalMutationRuns.NamesByIdNeverLoses | src/lib/memory/service.ts:694-698 | A mutation that names every memory by its id never loses a file. |
| LocalMutationRuns.RunKeepsInv | src/lib/memory/service.ts:165-537 | In a run that loses nothing the same holds in every state. |
| LocalMutationRuns.AppliesAtMostOnce | src/lib/maintenance/local-store.ts:195-208 | For one operation id at most one call of a run ever changes state; later ones answer already_applied or, for another payload, conflict. |
| LocalMutationRuns.AppliedKeepsOldText | src/lib/memory/service.ts:739-752 | The revision an applied mutation stores is new and holds the text the index had for the memory; the new text is the one of the new row. |
| LocalMutationRuns.UnappliedTouchesNothing | src/lib/memory/service.ts:814-820 | A call that is refused or throws touches no memory. |
| LocalMutationRuns.RevisionChain | src/lib/memory/service.ts:734-756 | Between two mutations of a memory that nothing else touches in between, the second stores exactly the text the first wrote; refused and throwing calls about it may come in between. |
| LocalMutationRuns.RevisionStaysForever | src/lib/maintenance/local-store.ts:151-169 | A revision is kept unchanged until its memory is forgotten. |
| LocalMutationRuns.RestoredText | src/lib/maintenance/mutations.ts:129-141 | An applied restore writes the revision's content under the id, name and creation time the memory has now. |
| LocalMutationRuns.RestoreUndoesMutation | src/lib/maintenance/mutations.ts:80-143 | In every run, restoring the revision that a mutation stored, archiving included, gives the memory back as before under the name it has now, except updated_at and lifecycle fields, whatever happened in between short of forgetting it; without a rename in between the name is the same too. |
| LocalMutationLaws.AppliedIff | src/lib/memory/service.ts:684-832 | In terms of the state, the request and the failures, a local mutation is applied if and only if the operation is new, exactly the memories it names are indexed by their ids with file, row and request agreeing on the hash, names, settings, cap, pruned links and revision allow it, no write fails and the index transaction works. |
| LocalMutationLaws.KnownOperationIsAnswered | src/lib/maintenance/local-store.ts:195-208 | A known operation is answered already_applied or conflict, by its payload, and nothing is done. |
| LocalMutationLaws.ThrowsIff | src/lib/memory/service.ts:709-820 | A new operation whose memories read as expected throws if and only if the revision to restore is missing, a merge names one memory, a write fails or the index transaction fails, each where the call gets that far; otherwise it is applied or answers conflict. |
| LocalMutationLaws.UnreadIsAnswered | src/lib/memory/service.ts:694-708 | A new operation stops at the first of its memories that does not read as expected: with an exception if the row has no file, or there is no row and it is a restore; with a conflict otherwise. |
| LocalMutationLaws.AppliedStoresPrepared | src/lib/memory/service.ts:728-813 | Each memory an applied mutation prepares, from the memories as indexed and the settings in force, is in its file, and in the row with its name, hash and activity, and its links if it is active. |
| LocalMutationLaws.AppliedArchive | src/lib/maintenance/mutations.ts:80-89 | An applied archive leaves the memory's row inactive and without links, and its file with the archived memory, otherwise as it was. |
| LocalMutationLaws.RenamedText | src/lib/memory/service.ts:476-509 | A local rename leaves the memory, otherwise unchanged, in the file of the new name, no file under the old one, and every revision body as it was. |
| LocalMutationLaws.RenamedReferences | src/lib/memory/service.ts:521-537 | In every other memory the new name stands wherever the old one stood among links and supersedes, and nothing else has changed; a file without the old name is not touched. |
| LocalMutationLaws.RenamedLinksAgreeIff | src/lib/memory/service.ts:494-537 | After a local rename the links indexed for a memory are those of its file, if they were before, if and only if the renamed memory did not link to itself and no other linked to both names; one that did now repeats a link in its file, which a rebuild refuses. |
| LocalMutationLaws.OneSaveWins | src/lib/maintenance/local-store.ts:75-92 | Of two saves of the settings that expect the same version at most one is stored, whatever unlocked calls come in between. |
| LocalMutationLaws.FirstSeenStays | src/lib/maintenance/local-store.ts:133-149 | A link first seen missing keeps its date, whatever else is observed, until the observation is cleared. |
| KnowledgeGraph.PruneKeepsShares | src/lib/memory/kg.ts:20-23 | Pruning unused entities takes no alias, edge or membership along and leaves what every memory has as it is. |
| KnowledgeGraph.PruneLeavesNoOrphans | src/lib/memory/kg.ts:20-23 | After pruning, every entity has a member. |
| KnowledgeGraph.RemoveMemoryKg | src/lib/memory/kg.ts:59-64 | A removed memory has nothing left in the tables, every other memory has what it had, and no orphan remains. |
| KnowledgeGraph.EntityIdOf | src/lib/memory/kg.ts:12-18 | The entity of a name is found or made once; nothing any memory has changes. |
| KnowledgeGraph.ApplyMemoryKg | src/lib/memory/kg.ts:25-57 | It throws exactly for an undeclared entity in a triple of an active memory; otherwise the memory has exactly what it declares, the others what they had, and nothing is orphaned or dangling. |
| KnowledgeGraph.SameSharesSameEntities | src/lib/memory/kg.ts:20-57 | Tables in which every memory has the same have the same entities, one for one, up to ids. |
| MemoryIndex.InsertList | src/lib/memory/service.ts:88-92 | The insertions fail exactly on a repeated item and otherwise give the memory exactly its list. |
| MemoryIndex.Upsert | src/lib/memory/reconcile.ts:42-73 | It fails exactly on a taken name or an unacceptable memory; otherwise the memory's rows in all tables are the ones it should have and no other memory's change. |
| MemoryIndex.WriteIsConsistentIff | src/lib/memory/reconcile.ts:42-73 | Writing a text and giving its memory a share keeps the tables those of the files if and only if the share is the one the text reads back to. |
| MemoryIndex.ContributionReadsBackIffNormal | src/lib/markdown/frontmatter.ts:41-84 | What is indexed for a memory is what its text reads back to if and only if the body has no line breaks around it. |
| MemoryIndex.TrailingNewlineIsNotNormal | src/lib/markdown/frontmatter.ts:41-84 | A concrete body for which the index after a save differs from the rebuilt one. |
| MemoryIndex.LocalMemoryIndex.Save | src/lib/memory/service.ts:165-212 | A save refuses a used name, undoes its file if the transaction throws, and otherwise leaves the tables those of the files if and only if the memory is normal. |
| MemoryIndex.LocalMemoryIndex.Update | src/lib/memory/service.ts:353-417 | An update is not found exactly without a row in the project, and fails exactly if it would empty the entities of a user, feedback or project memory or the tables refuse the edited memory; then the old text is back. Otherwise the tables are those of the files if and only if the new memory is normal. |
| MemoryIndex.UpdatedTables | src/lib/memory/service.ts:393-411 | Writing only the columns an update can change gives the memory all the rows it should have. |
| MemoryIndex.LocalMemoryIndex.Forget | src/lib/memory/service.ts:419-439 | A forget removes the file and everything the tables hold for the memory, and nothing else. |
| MemoryIndex.LocalMemoryIndex.ApplyMemories | src/lib/memory/service.ts:780-813 | The index update of a mutation is all or nothing: it throws if and only if the tables refuse one of its memories, and it leaves the tables those of the files if and only if all of its memories are normal. |
| MemoryIndex.LocalMemoryIndex.Reindex | src/lib/memory/reconcile.ts:107-171 | From any tables at all, a rebuild gives the tables of the files that the tables accept, skipping the others; an index kept up to date comes out as it was, up to entity ids. |
| MemoryIndex.FilesDetermineTables | src/lib/memory/reconcile.ts:42-171 | The files determine every table up to entity ids, so the incremental index equals the rebuilt one. |
| MemoryIndex.FreeNameIffNoFile | src/lib/memory/service.ts:100-104 | A name is taken in the tables exactly if it has a file of another memory. |
| IndexLaws.RefusedIff | src/lib/memory/reconcile.ts:42-73 | The tables refuse exactly an active memory that repeats a tag, link or supersedes or has a triple about an entity it does not declare. |
| IndexLaws.RowOfFile | src/lib/memory/reconcile.ts:42-73 | In tables that are those of the files each column of a row is the field of the memory in the file, and path, project and hash are those of the file. |
| IndexLaws.ListsOfFile | src/lib/memory/reconcile.ts:42-73 | An active memory has exactly its tags, links, supersedes and its full text in the tables, an archived one none. |
| IndexLaws.GraphOfFile | src/lib/memory/kg.ts:25-57 | An active memory is a member of exactly its entities, asserts exactly their aliases and an edge for exactly each of its triples, in its project; an archived one none. |
| MetadataStore.FirestoreMetadataStore.PutMemoryIndex | src/lib/storage/firestore-metadata.ts:850-873 | The transaction computes `Put`; one that throws writes nothing. |
| MetadataStore.FirestoreMetadataStore.RemoveMemoryIndex | src/lib/storage/firestore-metadata.ts:875-904 | The transaction computes `Remove`. |
| MetadataStore.FirestoreMetadataStore.RestoreMemoryIndex | src/lib/storage/firestore-metadata.ts:906-971 | The transaction computes `RestoreOne`; one that throws writes nothing. |
| MetadataStore.FirestoreMetadataStore.RestoreMemoryIndexes | src/lib/storage/firestore-metadata.ts:973-1042 | The loops of the transaction compute `RestoreAll`; one that throws writes nothing. |
| MetadataStore.FirestoreMetadataStore.ReplaceMemoryIndexes | src/lib/storage/firestore-metadata.ts:1051-1092 | The loops of the transaction compute `Replace`; one that throws writes nothing. |
| MetadataStore.FirestoreMetadataStore.DeleteMemoryIndex | src/lib/storage/firestore-metadata.ts:1094-1106 | The transaction computes `Delete`. |
| MetadataStore.FirestoreMetadataStore.CommitMemoryMutation | src/lib/storage/firestore-metadata.ts:605-731 | The transaction computes `Committed`, and writes only if it is applied; `MetadataLaws.CommitAppliedIff` says when, `MetadataLaws.CommitWrites` what. |
| MetadataInvariants.IndexIsBijection | src/lib/storage/firestore-metadata.ts:850-1106 | In an index that is in order a name is indexed exactly when one memory has it, with that memory's id, key and hash. |
| MetadataInvariants.PutKeepsIndexIff | src/lib/storage/firestore-metadata.ts:850-873 | A put keeps the index in order if and only if the memory is new or recorded under the name it is put with. |
| MetadataInvariants.UndonePutKeepsIndexIff | src/lib/storage/firestore-metadata.ts:906-971 | Taking an update back under the same name never throws, and leaves the index in order if and only if the update had: it does not repair what a put under another name broke. |
| MetadataInvariants.RemoveKeepsIndex | src/lib/storage/firestore-metadata.ts:875-904 | A removal keeps the index in order, whatever it is asked to remove. |
| MetadataInvariants.RestoreKeepsIndex | src/lib/storage/firestore-metadata.ts:906-971 | A restore keeps the index in order, whatever record it is given. |
| MetadataInvariants.DeleteKeepsIndex | src/lib/storage/firestore-metadata.ts:1094-1106 | A deletion keeps the index in order. |
| MetadataInvariants.ReplaceKeepsIndexIff | src/lib/storage/firestore-metadata.ts:1051-1092 | A replacement of different memories keeps the index in order if and only if its names are different, the memory recorded under the old name is among its records, and each of its memories is recorded under the name it comes with or under the old one. |
| MetadataInvariants.UndoneReplaceKeepsIndexIff | src/lib/storage/firestore-metadata.ts:973-1042 | Taking a rename back leaves the index in order if and only if the rename had. |
| MetadataInvariants.RestoreAllKeepsIndex | src/lib/storage/firestore-metadata.ts:973-1042 | A restore of many records as rename calls it keeps the index in order. |
| MetadataInvariants.CommitKeepsIndex | src/lib/storage/firestore-metadata.ts:605-731 | A mutation commit keeps the index in order, renamed memories giving up their names. |
| MetadataInvariants.CallKeepsIndexIff | src/lib/storage/firestore-metadata.ts:605-1106 | Any one call keeps the index in order if and only if what it puts or replaces fits the recorded names, or it throws; removals, restores, deletions and commits always do. |
| MetadataInvariants.RunKeepsIndexIff | src/lib/storage/firestore-metadata.ts:605-1106 | Over any sequence of calls by any writers, through cache rows however stale, the name index has been a bijection with the memories up to a state if and only if every put and replacement before it fitted the recorded names or threw. |
| MetadataInvariants.CommitsOnce | src/lib/storage/firestore-metadata.ts:611-622 | Over all sequences of calls an operation is applied at most once; a later commit of it changes nothing and says so. |
| MetadataInvariants.RemoveUndoesPut | src/lib/storage/firestore-metadata.ts:875-904 | Put then remove of a new memory leaves no trace but the revision counter. |
| MetadataInvariants.RestoreUndoesPut | src/lib/storage/firestore-metadata.ts:906-971 | Put then restore of the true previous record leaves no trace but the revision counter. |
| MetadataInvariants.RestoreUndoesDelete | src/lib/storage/firestore-metadata.ts:906-941 | Delete then restore gives memories and names back; tombstones are as before if and only if the key had none. |
| MetadataInvariants.RestoreUndoesReplace | src/lib/storage/firestore-metadata.ts:973-1042 | Replace then restore of the true previous records gives memories and names back; tombstones are as before if and only if none of the buried keys had one. |
| MetadataInvariants.RestoreIsGuarded | src/lib/storage/firestore-metadata.ts:906-971 | With another writer in between, a restore acts exactly if the memory still holds what is undone or lies buried under the restored key, throws exactly if then the name is taken, and otherwise changes nothing. |
| MetadataInvariants.RestoreBringsBackDeleted | src/lib/storage/firestore-metadata.ts:906-971 | A concrete state in which the restore of an update brings back a memory that another writer has deleted in between. |
| MetadataInvariants.RemoveIsGuarded | src/lib/storage/firestore-metadata.ts:875-904 | With another writer in between, a removal acts exactly if the memory still holds what was written; otherwise it changes nothing. |
| MetadataInvariants.RestoreAllIsGuarded | src/lib/storage/firestore-metadata.ts:995-1010 | Undoing a rename throws exactly if any of the records it wrote has been changed or taken away. |
| MetadataLaws.CommitAppliedIff | src/lib/storage/firestore-metadata.ts:605-690 | A commit is applied if and only if it is new, its records are different memories', the project is writable, the settings recorded are enabled at exactly the version stated (or none is stated, in the shared project or for a restore), each expected hash is the recorded one, the active memories of a shared creation are below the cap, each pruned name is a recorded link of a named memory, has no entry in the name index and was first seen missing 30 days ago, and no record's name is held by another memory. |
| MetadataLaws.CommitAnswers | src/lib/storage/firestore-metadata.ts:605-690 | Repeated records and a missing project throw, a known operation answers by its payload, everything else that is not applied is a conflict, and none of them writes. |
| MetadataLaws.CommitWrites | src/lib/storage/firestore-metadata.ts:691-731 | An applied commit writes each record under its id and its name, drops exactly the names that named memories held and gave up, records the operation and the next revision, and leaves every other document. |
| MetadataLaws.SettingsMoveOn | src/lib/storage/firestore-metadata.ts:508-520 | No transaction takes the settings version back, and while it stands the settings stand; only a save of the settings changes them. |
| MetadataLaws.AppliedUsedSettingsInForce | src/lib/storage/firestore-metadata.ts:625-634 | In any run of transactions, a commit applied with the settings version read at an earlier state had the same settings, enabled, at every state in between, although they are saved without a lock. |
| MetadataLaws.PutIs | src/lib/storage/firestore-metadata.ts:850-873 | The three exceptions of a put, each exactly when it is thrown, and the documents after one that throws none. |
| MetadataLaws.RemoveIs | src/lib/storage/firestore-metadata.ts:875-904 | A removal takes the record and, where it is the memory's own, the name entry, exactly while the memory holds the expected pointer. |
| MetadataLaws.RestoreOneIs | src/lib/storage/firestore-metadata.ts:906-971 | With the index in whatever state: when a restore acts, throws or does nothing, and every document after one that acts. |
| MetadataLaws.DeleteIs | src/lib/storage/firestore-metadata.ts:1094-1106 | A deletion takes the record and its name, leaves the tombstone, and touches nothing else. |
| MetadataLaws.ReplaceAnswers | src/lib/storage/firestore-metadata.ts:1051-1073 | A replacement throws exactly for a project that cannot be written or a name another memory has. |
| MetadataLaws.ReplaceWrites | src/lib/storage/firestore-metadata.ts:1070-1092 | A replacement writes its records under ids and names, the tombstones, drops the old name unless a record has it, and leaves every other document. |
| MetadataLaws.RestoreAllAnswers | src/lib/storage/firestore-metadata.ts:973-1018 | A restore of several records throws exactly if one of those to take back has changed in record or name entry, or a name to restore is another memory's. |
| MetadataLaws.RestoreAllWrites | src/lib/storage/firestore-metadata.ts:1018-1042 | It writes the previous records under ids and names, drops the memories and names that only the records taken back have, lifts the tombstones, and leaves every other document. |
| MetadataInvariants.UndoOfReplaceWorks | src/lib/storage/firestore-metadata.ts:973-1042 | Taking a rename back right away never throws, however stale the rows it was made from. |
| CloudPointers.RemoveKeepsSoundIff | src/lib/memory/cloud-service.ts:577-589 | Removing an object keeps every pointer good if and only if no record points at it. |
| CloudPointers.SetAllKeepsRecords | src/lib/memory/cloud-service.ts:737-740 | Records with good pointers written over good records are all good. |
| CloudPointers.RestoreAllKeepsSound | src/lib/memory/cloud-service.ts:773-783 | Restoring previous records whose objects still exist keeps every pointer good. |
| CloudPointers.CommitKeepsSound | src/lib/memory/cloud-service.ts:1128-1133 | Committing records whose objects exist keeps every pointer good. |
| CloudPointers.KeyDeterminesId | src/lib/memory/cloud-service.ts:73-75 | A content-addressed key belongs to one memory only. |
| CloudMemory.CloudMemoryService.Save | src/lib/memory/cloud-service.ts:292-350 | It is done if and only if the name is not in the cache, the object is new and written, the put reaches a project that can be written and in which the name is free, and the cache is up; the compensation fails if and only if all that holds but the cache, and the undo fails. At every step, with any failures, every pointer is good; a failed save leaves nothing, or an object under a tombstone. |
| CloudMemory.CloudMemoryService.Update | src/lib/memory/cloud-service.ts:505-591 | Every ending if and only if, over the state before and the faults. At every step, with any failures and any stale cache row, every pointer is good; a compensated failure through a current row leaves memories and names as before. The name index stays in order if and only if the update does not get to put its record or the memory is recorded under the name of the row. |
| CloudMemory.CloudMemoryService.UndoSave | src/lib/memory/cloud-service.ts:330-348 | The catch block takes the record back before it removes the object; it fails exactly if the undo is down, and then record and object both stay. |
| CloudMemory.CloudMemoryService.UndoUpdate | src/lib/memory/cloud-service.ts:569-588 | The catch block puts the previous record back before it removes the new object; it fails exactly if the undo is down. |
| CloudMemory.CloudMemoryService.Forget | src/lib/memory/cloud-service.ts:593-631 | Every ending if and only if, over the state before and the faults; the compensation fails also if another memory holds the name. At every step every pointer is good; only a finished forget removes the object and the bodies of the revisions found. The name index stays in order. |
| CloudMemory.CloudMemoryService.Rename | src/lib/memory/cloud-service.ts:641-795 | Every ending if and only if, over the state before and the faults (for the failing compensation, with cache rows of different names). Every world on the way is sound if and only if it is not the case that the record already pointed at the object to be written first and the clean-up of that refused write removed it; each object a finished rename replaced is gone or under a tombstone. The name index stays in order if and only if the rename does not get to replace the records or its cache rows fit the recorded names. |
| CloudMemory.CloudMemoryService.CleanupWrittenKeys | src/lib/memory/cloud-service.ts:707-724 | The clean-up of a failed rename keeps every pointer good if and only if it removes no object that a record points at. |
| CloudMemory.CloudMemoryService.UndoRename | src/lib/memory/cloud-service.ts:773-783 | After the previous records are restored, none of them points at an object the clean-up removes. |
| CloudMemory.CloudMemoryService.RemoveOldObjects | src/lib/memory/cloud-service.ts:785-793 | After a committed rename the old objects are pointed at by nobody and go, with their tombstones. |
| CloudMemory.CloudMemoryService.WriteSnapshots | src/lib/memory/cloud-service.ts:1067-1104 | The write loop succeeds if and only if every text and revision body can be stored, stores then each of them, and reports exactly the new texts. |
| CloudMemory.CloudMemoryService.ReadMutation | src/lib/memory/cloud-service.ts:1013-1063 | The reads go on exactly if the memories named are cached and recorded with the hashes expected, the name of a creation is free, the settings allow it and preparing works; else they stop with an exception exactly for a missing memory of a restore or because preparing throws, and with a conflict otherwise. |
| CloudMemory.CloudMemoryService.ApplyMutation | src/lib/memory/cloud-service.ts:1009-1155 | It commits if and only if, in terms of the state before and the faults, nothing stops it, no write fails and the transaction accepts it; a call that commits answers applied if and only if the commit answered and the cache or its rebuild worked, and already_applied or an exception by the look-up and the rebuild; a new operation that does not commit answers conflict or throws, each exactly when. Every world on the way is sound if and only if it is not the case that it commits, an exception then reaches the catch block, the look-up there fails, and the clean-up removes a text that was not there before. After a commit seen as such every new text and every replaced text, as a revision body, is stored. |
| CloudMemory.CloudMemoryService.Settle | src/lib/memory/cloud-service.ts:1129-1153 | What follows the commit changes no metadata, and its answer is determined by the commit and the faults; the objects of a refused commit are removed, those of a known applied one kept. |
| CloudMemory.OldKeyIsFree | src/lib/memory/cloud-service.ts:785-793 | Once a rename is committed no record points at an object it replaced. |
| CloudMemory.UndoneKeysAreOld | src/lib/memory/cloud-service.ts:773-783 | Once a rename is undone every record points at an object that was there before it. |
| CloudMemory.CommitReferences | src/lib/memory/cloud-service.ts:1111-1133 | A commit that takes effect leaves every text it wrote pointed at and records the operation; otherwise nothing changed. |
| CloudMemory.LostCommitBreaksPointer | src/lib/memory/cloud-service.ts:1144-1153 | A concrete call that creates a memory, with the faults of the excepted case, in which a record loses its object. |
| CloudMemory.WrittenKeysAreFree | src/lib/memory/cloud-service.ts:707-732 | Of the objects a failed rename cleans up, only the first can be pointed at, and only if the record was at it before. |
| CloudMemory.LostUndoIsAlreadyThere | src/lib/memory/cloud-service.ts:773-783 | A rename whose compensation failed leaves the record at the object that the same rename, tried again with the same timestamp, writes first. |
| CloudMemory.RetriedRenameBreaksPointer | src/lib/memory/cloud-service.ts:725-734 | A concrete memory renamed with a lost undo and renamed again through its stale cache row: the excepted case holds, and the removal leaves the record without its object. |
| CloudMemory.CurrentRowsFit | src/lib/memory/cloud-service.ts:646-690 | Cache rows that carry the names their memories are recorded under fit: a rename through them keeps the name index in order. |
| CloudMemory.LostUndoIsRecordedOtherwise | src/lib/memory/cloud-service.ts:773-783 | A rename whose compensation failed leaves the row of the renamed memory with another name than its record. |
| CloudMemory.StaleUpdateBreaksIndex | src/lib/memory/cloud-service.ts:505-547 | A concrete update through the stale row of a rename with a lost undo: the put is accepted, and two names lead to one memory. |
| CloudMemory.StaleRenameBreaksIndex | src/lib/memory/cloud-service.ts:737-740 | A concrete second rename through that row: the replacement is accepted, and the name in between stays. |
| CloudMemory.MutationKeepsIndex | src/lib/memory/cloud-service.ts:1105-1133 | Committing prepared memories with different names, of which the recorded ones are among those named, keeps the name index in order. |
| CloudMemory.RenameTwice | src/lib/memory/cloud-service.ts:641-795 | Two calls in a row: if the undo of the first was lost, the second, with the same arguments and working removals, fails and passes through a world with a bad pointer. |
| CloudLaws.MutationTakesIff | src/lib/memory/cloud-service.ts:1015-1128 | From the documents, the objects, the request and the faults: a cloud mutation commits if and only if the operation is new, the project writable, the settings enabled at the stated version, the memories named are cached and recorded with the hashes expected, the prepared memories can all be stored, the transaction reaches the documents, and cap, pruned links and names are as it needs them. |
| CloudLaws.MutationRecords | src/lib/memory/cloud-service.ts:1104-1128 | After a commit each prepared memory is recorded with its fields, its key and the hash of its text, every other memory as before, and the operation with its payload. |
| CloudLaws.PutRecords | src/lib/memory/cloud-service.ts:318-322 | After a save or update the memory is recorded with its fields, key and hash and indexed under its name, and nothing else changed. |
| CloudLaws.UpdateRecords | src/lib/memory/cloud-service.ts:505-547 | The updated memory keeps id, name and activity, and has the links given or the old ones and the text given. |
| CloudLaws.RenameRecords | src/lib/memory/cloud-service.ts:641-740 | After a rename the first memory is recorded under the new name, each other one under its own, all with rewritten links, and no memory outside the rename changed. |
| PprTheory.MoveConservesMass | src/lib/graph/ppr.ts:33-43 | One move of the walk, dangling mass included, keeps the total score. |
| PprTheory.IterationContracts | src/lib/graph/ppr.ts:33-45 | One iteration contracts the L1 distance of any two score vectors by 1 - alpha, on any graph with dangling nodes and parallel edges. |
| PprTheory.IteratesAreDistributions | src/lib/graph/ppr.ts:27-48 | After every iteration scores are non-negative, sum to 1, and each seed has at least alpha / the number of seeds. |
| PprTheory.UnreachableScoresZero | src/lib/graph/ppr.ts:33-48 | A node no walk from a seed reaches has score 0 after every iteration. |
| PprTheory.DeltasShrink | src/lib/graph/ppr.ts:44-46 | The k-th delta is at most 2 (1 - alpha)^k. |
| PprTheory.LaterIteratesStayClose | src/lib/graph/ppr.ts:44-46 | Every later iterate is within delta (1 - alpha) / alpha of the k-th. |
| PprTheory.CloseToFixpoint | src/lib/graph/ppr.ts:44-46 | The k-th iterate is within delta (1 - alpha) / alpha of the fixpoint. |
| PprTheory.FixpointIsUnique | src/lib/graph/ppr.ts:24-48 | For alpha > 0 there is at most one fixpoint. |
| PprFixpoint.FixpointExists | src/lib/graph/ppr.ts:24-48 | For alpha > 0 there is a fixpoint, on any graph. |
| LinearSystems.Solvable | src/lib/graph/ppr.ts:33-48 | Any system x = b + A x with non-negative A and column sums below one has a solution. |
| Ppr.Distribute | src/lib/graph/ppr.ts:41-41 | The inner loop adds to each node exactly its share of the weight of the edges into it. |
| Ppr.WalkStep | src/lib/graph/ppr.ts:36-42 | The loop over the nodes adds up the flow along all counted edges and the dangling mass. |
| Ppr.Iterated | src/lib/graph/ppr.ts:34-43 | One round of the loop computes one iteration of the theory. |
| Ppr.IterateUntil | src/lib/graph/ppr.ts:33-47 | The loop returns the iterate of the first number whose delta is below the tolerance, or of the limit if no earlier delta is. |
| Ppr.PersonalizedPageRank | src/lib/graph/ppr.ts:19-49 | With options clamped as in the source, the result is empty without valid seeds and otherwise the first iterate whose delta is below the tolerance, or the one of the limit if no earlier delta is. |
| Ppr.ResultIsADistribution | src/lib/graph/ppr.ts:27-48 | What a caller gets is a distribution that favours the seeds and is zero where no walk leads. |
| Ppr.ResultIsClose | src/lib/graph/ppr.ts:44-48 | On exit by tolerance the scores are within tol (1 - alpha) / alpha of the fixpoint and of every later iterate. |
| PprLaws.TransitionIs | src/lib/graph/ppr.ts:37-41 | A node hands its score on along its listed edges in proportion to their weights, counting those of positive weight into the graph, and is dangling if none counts. |
| PprLaws.IterationIs | src/lib/graph/ppr.ts:34-43 | The new score of a node is alpha times an even restart at the seeds plus, for the rest, what the nodes send it and an even share, at a seed, of what dangles. |
| OAuthStore.SqliteOAuthStore.ConsumeAuthorizationCode | src/lib/oauth/sqlite-store.ts:159-173 | A code is spent exactly if client, redirect URI and time fit and it is neither spent nor revoked. |
| OAuthStore.SqliteOAuthStore.CreateTokenSet | src/lib/oauth/sqlite-store.ts:175-177 | Grant, access and refresh token are stored together, or nothing if a unique column collides. |
| OAuthStore.SqliteOAuthStore.RotateRefreshToken | src/lib/oauth/sqlite-store.ts:189-204 | A live token of the client is replaced, once; otherwise nothing changes. |
| OAuthStore.SqliteOAuthStore.RevokeAccessTokenByHash | src/lib/oauth/sqlite-store.ts:206-212 | Exactly a live access token is revoked, alone. |
| OAuthStore.SqliteOAuthStore.RevokeRefreshTokenFamilyByHash | src/lib/oauth/sqlite-store.ts:214-225 | The family, the grant and everything issued for the grant are revoked. |
| OAuthStore.SqliteOAuthStore.RevokeByGrantId | src/lib/oauth/sqlite-store.ts:227-234 | The grant and everything issued for it are revoked. |
| OAuthStore.SqliteOAuthStore.RevokeGrant | src/lib/oauth/sqlite-store.ts:240-245 | Only the owner's grant is revoked. |
| OAuthStore.FamilyRevokedIs | src/lib/oauth/sqlite-store.ts:214-225 | Exactly the live tokens of the family, and the live unspent codes, access tokens and row of its grant, are revoked at the given time; no other row changes. |
| OAuthStore.GrantRevokedIs | src/lib/oauth/sqlite-store.ts:227-234 | Exactly the live rows of the grant are revoked at the given time; no other row changes. |
| OAuthProtocol.RunKeepsInv | src/lib/oauth/service.ts:290-465 | In every interleaving of requests, each cut where it awaits the store, families, grants and codes stay in order. |
| OAuthProtocol.FamiliesStaySound | src/lib/oauth/service.ts:391-416 | In every run families and grants correspond one to one and each family has at most one unrevoked refresh token. |
| OAuthProtocol.RevokedForever | src/lib/oauth/sqlite-store.ts:214-245 | Once a grant is revoked none of its tokens is accepted or rotated again and none is issued for it. |
| OAuthProtocol.OneTokenSetPerCode | src/lib/oauth/service.ts:323-389 | Each authorization code yields at most one token set, and the one it yields is stored. |
| OAuthProtocol.OnlyTheVerifierExchanges | src/lib/oauth/service.ts:327-336 | A token set is prepared exactly for the code's verifier and resource, and the code is spent in any case. |
| OAuthProtocol.ReplayIsRefused | src/lib/oauth/service.ts:407-414 | A refresh with a rotated or revoked token issues nothing and goes on to revoke. |
| OAuthProtocol.ReplayKillsTheGrant | src/lib/oauth/service.ts:411-414 | Whatever happens in between, the revocation that follows a replay kills the grant for good. |
| OAuthService.Service.ApproveAuthorization | src/lib/oauth/service.ts:290-321 | An approved transaction leaves a code that exactly its client can use, at exactly its redirect URI, until it expires; a denied one leaves nothing. |
| OAuthService.Service.ExchangeAuthorizationCode | src/lib/oauth/service.ts:323-389 | Tokens are issued exactly for a usable code, its verifier, the server's resource and a known client; a usable code is spent whatever the later checks say. After success the drawn access hash is the code user's and accepted, for this resource, at exactly the times before now plus the access lifetime; the drawn refresh hash, of the drawn family, can be rotated by exactly this client before exactly now plus the refresh lifetime; no other hash was added or changed. |
| OAuthService.Service.RefreshAccessToken | src/lib/oauth/service.ts:391-437 | Rotation succeeds exactly for a live token of the client; any other token of the client costs the whole family its life. After success the drawn hashes are accepted and rotatable until exactly the two lifetimes from now, in the old family; the old token is dead, and no other hash was added or changed. |
| OAuthService.Service.RevokeToken | src/lib/oauth/service.ts:451-457 | An access token goes alone, a refresh token takes its family and grant along. |
| OAuthService.Service.VerifyAccessToken | src/lib/oauth/service.ts:439-449 | A token is accepted exactly if its row is there, is not revoked, expires later than now and is for the server's resource; the user is the row's. |
| OAuthService.RotationHandsOver | src/lib/oauth/sqlite-store.ts:189-204 | After a refresh the successor is the family's one live token. |
| KeyedMutex.Mutex.Enter | src/lib/memory/mutex.ts:4-9 | Entering a call links it to the promise the key had and puts its own there. |
| KeyedMutex.Mutex.Start | src/lib/memory/mutex.ts:10-12 | A body starts only after the promise awaited has settled. |
| KeyedMutex.Mutex.Leave | src/lib/memory/mutex.ts:13-16 | Leaving releases the slot, and deletes the key exactly if no later call has taken it. |
| KeyedMutex.MutexIsCorrect | src/lib/memory/mutex.ts:4-17 | In every schedule at most one body per key runs, bodies run in call order even when some throw, a waiting call is enabled exactly when its predecessors are finished, and a key has an entry exactly while some call on it is unfinished. |
| Related.FindRelated | src/lib/memory/service.ts:455-473 | Exactly the active memories at link distance at most the capped depth, each once, in order of distance, on any link graph, cycles included. |
| Related.Expand | src/lib/memory/service.ts:464-471 | Expanding one memory discovers exactly its new neighbours, one step further away. |
| Related.NearerIsKnown | src/lib/memory/service.ts:462-471 | Everything nearer than an unexpanded memory has been discovered. |
| Related.BallIsWalks | src/lib/memory/service.ts:455-473 | A memory is within link distance d exactly if a walk of at most d links leads to it. |
| Rrf.RrfMerge | src/lib/memory/rrf.ts:1-14 | The result is the stable ranked union: each key of the lists with its first-seen item, by falling summed reciprocal rank, ties in first-seen order. |
| Rrf.SortIsStable | src/lib/memory/rrf.ts:11-12 | The sort puts higher scores first and keeps the order of equal ones. |
| Rrf.EachKeyOnce | src/lib/memory/rrf.ts:8-13 | Every key comes out once. |
| Rrf.FusionIsUnique | src/lib/memory/rrf.ts:1-14 | There is only one stable ranked union of given lists. |
| Rrf.AheadEverywhereMeansAhead | src/lib/memory/rrf.ts:4-12 | An item ranked ahead of another in every list that holds the other is merged ahead of it. |
| Rrf.ScoreIsReciprocalRanks | src/lib/memory/rrf.ts:4-9 | The score of an item is the sum of 1 / (k + rank) over the lists that rank it. |

## Left out

- MetadataStore.FirestoreMetadataStore.CommitMemoryMutation: revision and event documents and the project's `updated_at` are not modelled, because nothing stated here reads them.
- CurationProtocol.CursorPassesNothing: stated for saves whose row is inserted as soon as the clock was read, as in local mode; the form without that is CurationProtocol.CursorPassesNothingInserted.
- CurationProtocol.StepKeepsInv: which deferred candidates the deferred stage lists is left open, so any are allowed; the theorem is about window pages.
- LocalMutation.MemoryService.ApplyMutation: a file that cannot be parsed, a crash between files and database, and a rollback whose own file writes fail are not modelled.
- MemoryIndex.LocalMemoryIndex.Reindex: stated for the whole store and for files each under the name of its memory and with an id of its own, as the service writes them.
- MemoryIndex.LocalMemoryIndex.Forget: the revision rows and bodies it also deletes are part of LocalMutationRuns, not of the index.
- CloudMemory.CloudMemoryService.ApplyMutation: revision records are not modelled, and the cache is only the question whether its update worked.
- CloudMemory.CloudMemoryService.Rename: that a compensated rename restores the whole records is not claimed, because the source rebuilds the previous records of references from already rewritten memories; pointers are.
- A metadata call other than the mutation commit that throws is taken as not committed.
- Ppr.PersonalizedPageRank: floating-point rounding.
- The full-text table is keyed by memory rather than by the row id it shares with the memory's row; tokenising, search and ranking queries are not modelled.
- The other tables after a local rename than the rows with their links, and `reconcile` from a stale index, which can skip rows.
- MemoryIndex.LocalMemoryIndex.Update: the edit is any function that keeps id, name, kind and creation time; the fields a patch gives and the review dates it moves are stated for mutations, in Mutations.PreparedPatch.
- The Firestore OAuth store, token scopes, rate limits, dynamic client registration and the authorization page; a replayed code does not revoke earlier tokens in the source, and none is claimed to.
- Signed page tokens, dry runs and the target view of curation, restore requests, and the text checks of proposals.
- JSON key order in Firestore's comparison of a repeated page: pages are compared by content.
- Several server instances on one project, clocks that go back, HTTP, MCP and UI layers.
