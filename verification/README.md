# Verified model of the modpack station

A Dafny model of the parts of the station whose correctness is not visible from reading one function:
the resolution of item tags, quest graphs and the revision log, the launcher's SHA-1, the protocols over
the database (releases, imports, catalog publication), deterministic builds, and three smaller loops.
`dafny verify dfyconfig.toml` checks everything.

## How the model is laid out

Code that changes state is modelled by classes and by methods with loops; each is proved equal to a
function of the old state, and the theorems are about that function. A protocol is a state machine: every
database transaction or statement is one step (the server opens SQLite with a single connection, so a
step is atomic), every answer of the outside world is part of the event, and a run is any sequence of
events, so the steps of all calls interleave freely. What holds "in every run" is proved by induction on
the events. Strings are sequences of bytes, ordered byte by byte, as Go and SQLite order them.

| module | what it models |
|---|---|
| Walks, Ordering, Sequences, Blanks, Options | walks and cycles in finite graphs; byte order; filtering, sorting and permuting rows; white space around text |
| TagResolution, TagTheorems, TagStatus, TagWary | the coloured, memoised search that resolves tags, what it computes, and why a tag ends resolved, partial or invalid |
| TagCycles, TagOrders, TagOutcomes, TagEntries, TagChoices | what the search makes of tags on cycles, and when the order of visits matters |
| TagDepth | the cap on depth and what happens beyond it |
| TagDefinitions, CatalogFinish | from tag definitions to the graph; inverse lists; storing and reading back |
| Kahn, QuestValidation, QuestReports | the cycle check, the issue codes a quest draft is reported for, and the condition for each in terms of the draft's fields |
| RevisionLog | append-only revisions with one applied: shared by quests and content documents |
| QuestStore, QuestRoundTrip, QuestAccepted, QuestRepo | the quest tables, saving and loading, exactly which drafts are accepted, the repository |
| QuestGraph, QuestRuns, QuestAdmission, QuestHistory, CyclicDraft | the stored graph, all runs, which drafts are admitted and applied, rollbacks and late commits within a run, a cyclic draft that is saved |
| ContentLog, ContentRuns | content documents: the repository, all runs |
| Sha1, Sha1KnownAnswer, Sha1Stream | FIPS 180-4 as a specification, its value on a known message, and the launcher's streaming hasher |
| ReleaseTable, ReleaseProtocol, ReleaseOutcomes, ReleaseAttempts | releases: the table, all runs, what is recorded and why, how many calls hold one at once |
| ImportConfirm | confirming imports |
| GenerationProtocol, GenerationHistory | rebuilding and serving catalogs: all runs, and what must have happened before a catalog is served |
| ArchivePaths, BuildManifest, BuildRecords | archive paths, canonical manifests, recorded inputs and artifacts |
| IconTags, Paging, SearchPairing | icons for tags, keyset pagination, pairing of search results |

## What came out

The main results are these: the tag search computes what plain recursion over the entries means, and a tag
ends resolved only if all that it requires, however far, is; a quest draft is reported for exactly the codes
that its fields deserve, a cycle among them; a quest revision is stored exactly if its draft is storable and it
loads as the draft in sorted order, book data included; a rollback restores its target exactly; nothing cyclic
and nothing unvalidated is ever applied; the launcher's streaming hasher computes SHA-1; every provider call of
a release has a reservation of its own, a release succeeds only on a word of success that a call or a poll has
read, and a succeeded release is final; an import preview is consumed once and all answers on it agree; a served
catalog was built from the current sources and stays served until something is edited; equal build manifests
come from equal contents and equal snapshots.

In some places the code does something a reader would not expect. It is modelled as it is, with the exact
condition where there is one.

- Every cycle of tag references, required or not, holds a tag that ends invalid (`EveryCycleSpoilt`). A tag
  that requires all the tags of a cycle, such as one that refers to itself, is invalid in every order
  (`RequiredCycleSpoils`). Which other tags of a cycle end invalid is decided by the tag that the search meets
  first (`EntryDecides`). Some order makes a tag invalid exactly when it requires, however far, a malformed
  tag or one on a cycle (`InvalidInSomeOrderIff`); every order does exactly when it requires a malformed tag,
  or when some cycle's tags, whichever of them is met first, include a caught one that it requires
  (`InvalidInEveryOrderIff`). No outcome depends on the order exactly when, whichever tag of a cycle comes
  first, all the tags on cycles with it end invalid (`OrderFreeIff`). Two tags that refer to each other
  optionally are an example in which the order matters (`OptionalCycleDependsOnOrder`).
- The depth test of the tag search comes before the memo test: a finished tag met deeper than 128 turns
  invalid and keeps its members (`InvalidWithMember` exhibits such a catalog). That takes a chain of 130
  different tags leading to it (`InvalidKeepsMembersOnlyDeep`), so it cannot happen among 129 tags
  (`FewTagsShallow`). The theorems about exact members assume that no simple chain of references is longer
  than the cap; a chain of 130 tags shows that the bound is sharp (`DeepChainInvalid`).
- Only the latest content revision is offered for applying, but not at the moment of the commit: a commit
  leaves a newer revision archived below an older one exactly when another commit has promoted a newer one
  since the call read (`OlderOverNewerIff`, in `ContentRuns` and, for quests, in `QuestHistory`);
  `OlderCanApplyLast` is a run in which it happens.
- Two calls hold the same release at once only after a poll or a missing file has made it "failed" while a
  call held it (`SecondOwnerWasLetIn`), and then a retry does give it a second holder (`LetInIsSecondOwner`).
  Both ways are reachable (`PollBreaksExclusion`, `MissingFileBreaksExclusion`); a poll that reads anything
  else lets nobody in.
- The generation that the pack points to can hold an older catalog than the one that is served (`CurrentMayLag`).
- Leading `..` segments cancel in pairs when an archive path is cleaned; cleaning agrees with the usual rule
  exactly when at most one remains (`CleanIsStandardIff`). An accepted path is accepted again unless cleaning
  has brought a drive letter to the front (`SafeStable`).
- A consumed import preview can never be confirmed again exactly when it has no recorded task and the call
  that consumed it is gone (`StrandedIff`, `StrandedForever`). A step brings that about exactly when it loses
  that call, before or after its task was queued (`StrandedExactlyBy`).
- The search for tag icons stops at 32 tags on the path, that is, after 31 references.

## Model

| member | source | states |
|---|---|---|
| TagResolution.ChildShrinks | apps/server/internal/service/item_catalog.go:418-423 | a tag that reaches no cycle has children that reach strictly fewer tags and no cycle either: plain recursion over its entries is well founded |
| TagResolution.Resolver.Visit | apps/server/internal/service/item_catalog.go:403-454 | the memoised, coloured visit keeps the search state valid and yields, off the cycles, exactly the status, diagnostics and members of plain recursion; on the way to a required cycle it yields invalid and no members |
| TagResolution.Resolver.FollowEntry | apps/server/internal/service/item_catalog.go:418-443 | one entry is added or removed with the members of its target, and spoils the tag's status when a required reference is not resolved: partial and named in a diagnostic, or invalid; the statuses this leads to are `TagStatus` and `TagWary` |
| TagResolution.Resolver.VisitEntries | apps/server/internal/service/item_catalog.go:418-444 | the loop over a tag's entries accumulates what the entries mean in order |
| TagResolution.Resolver.VisitAll | apps/server/internal/service/item_catalog.go:455-462 | visiting every tag in any order enters the body of each tag exactly once and leaves every tag finished, sound and (below the cap) exact; what that means for the status is stated apart in `TagStatus.SettledStatus` and `TagWary.ResolvedIff` |
| TagResolution.GuardAnswers | apps/server/internal/service/item_catalog.go:406-410 | meeting a tag that is being visited happens on a cycle only and answers as the meaning demands |
| TagResolution.MemoAnswers | apps/server/internal/service/item_catalog.go:411-416 | a finished tag answers with what it was finished with |
| TagResolution.ReferenceRefined | apps/server/internal/service/item_catalog.go:420-429 | following a reference adds exactly what the entry means to the accumulated outcome, and dooms the tag when the reference is required and leads to a cycle |
| TagResolution.VisitedAnswers | apps/server/internal/service/item_catalog.go:403-454 | every call, on every graph, is sound, and below the cap answers as plain recursion does |
| TagResolution.AllVisitedDone | apps/server/internal/service/item_catalog.go:455-462 | after visits in any order every tag is finished; below the cap each has its meaning, and an invalid one is empty |
| TagTheorems.InvalidMeaning | apps/server/internal/service/item_catalog.go:424-429 | off the cycles, a tag means invalid exactly when it reaches a malformed tag through required references |
| TagTheorems.InvalidIff | apps/server/internal/service/item_catalog.go:401-462 | with required references only, a tag ends invalid, without members, exactly when it is malformed or reaches a malformed tag or a cycle |
| TagTheorems.OrderIndependent | apps/server/internal/service/item_catalog.go:455-462 | status and members do not depend on the order of visits, off the cycles and on the way to required ones |
| TagTheorems.MemberIffLastWord | apps/server/internal/service/item_catalog.go:437-443 | something is a member exactly when the last entry that speaks of it adds it |
| TagTheorems.OptionalCycleDependsOnOrder | apps/server/internal/service/item_catalog.go:424-429 | two tags that refer to each other optionally: whichever is visited first ends invalid, the other resolved |
| TagStatus.DiagnosticsMeaning | apps/server/internal/service/item_catalog.go:424-425 | off the cycles a diagnostic is on record exactly if it was from the start or blames a required reference to a tag that does not mean resolved; none is there twice |
| TagStatus.StatusMeaning | apps/server/internal/service/item_catalog.go:424-429 | off the cycles a tag means invalid exactly if it requires, however far, a malformed one, partial if it started resolved and requires one that did not, and otherwise what it started as |
| TagStatus.SettledStatus | apps/server/internal/service/item_catalog.go:401-462 | the same of the statuses that a search leaves |
| TagStatus.SettledDiagnostics | apps/server/internal/service/item_catalog.go:424-425 | after a search a tag off the cycles blames exactly its required references to tags that have not ended resolved |
| TagWary.RequiringIsUnresolved | apps/server/internal/service/item_catalog.go:418-429 | on every graph, in every order and at any depth: a tag that requires, however far, one that does not start resolved does not end resolved |
| TagWary.UnresolvedHasCulprit | apps/server/internal/service/item_catalog.go:406-429 | and a tag that does not end resolved requires such a tag, or one that was caught on a cycle or too deep |
| TagWary.StatusFromStart | apps/server/internal/service/item_catalog.go:295-306 | short of invalid a tag keeps the status it started with, but that a resolved one may become partial |
| TagWary.ResolvedIff | apps/server/internal/service/item_catalog.go:401-462 | below the cap a tag ends resolved exactly without such a reason, on cycles and off them |
| TagDepth.DeepChainInvalid | apps/server/internal/service/item_catalog.go:406 | a well-formed chain of 130 tags is invalid when visited from its head |
| TagDepth.DeepMemoRun | apps/server/internal/service/item_catalog.go:406-416 | when the last of a chain of 130 tags is visited before the first, it ends invalid and keeps its member |
| TagDepth.InvalidWithMember | apps/server/internal/service/item_catalog.go:406-462 | a catalog of 130 tags, visited in the order of their names, whose first tag ends invalid and holds a member |
| TagDepth.InvalidKeepsMembersOnlyDeep | apps/server/internal/service/item_catalog.go:406-450 | on every graph and in every order, a tag that ends invalid with members is the end of a chain of 130 different tags |
| TagDepth.InvalidIsEmpty | apps/server/internal/service/item_catalog.go:444-446 | below the cap every tag that ends invalid has no members |
| TagDepth.FewTagsShallow | apps/server/internal/service/item_catalog.go:406 | with at most 129 tags the cap is out of reach |
| TagCycles.VisitedFinishing | apps/server/internal/service/item_catalog.go:403-454 | on every graph and at any depth, each reference of a finished tag leads to an invalid tag or to one that was finished before it |
| TagCycles.EveryCycleSpoilt | apps/server/internal/service/item_catalog.go:406-410 | on every graph, in every order and at any depth, each cycle of references holds a tag that ends invalid |
| TagOrders.VisitedFair | apps/server/internal/service/item_catalog.go:418-450 | below the cap a finished tag has heeded all its references, and off the cycles holds what its entries and the tags they name amount to |
| TagOutcomes.InvalidIffReason | apps/server/internal/service/item_catalog.go:406-429 | a tag ends invalid exactly when it requires, however far, a malformed tag or one on a cycle that was met again while being resolved |
| TagOutcomes.RequiredCycleSpoils | apps/server/internal/service/item_catalog.go:406-429 | a tag that requires all the tags of some cycle ends invalid in every order |
| TagOutcomes.FirstSpoilt | apps/server/internal/service/item_catalog.go:406-410 | a tag on a cycle that is visited first ends invalid |
| TagOutcomes.InvalidInSomeOrderIff | apps/server/internal/service/item_catalog.go:455-462 | some order of visits makes a tag invalid exactly when it requires, however far, a malformed tag or one on a cycle |
| TagEntries.VisitedLocal | apps/server/internal/service/item_catalog.go:418-423 | a visit neither colours nor flags a tag that it does not reach |
| TagEntries.VisitedAlike | apps/server/internal/service/item_catalog.go:403-454 | two searches that look alike among the tags on cycles with one another go on alike there |
| TagEntries.EntryDecides | apps/server/internal/service/item_catalog.go:455-462 | in every order, which tags on cycles with one another are flagged is decided by the one met first |
| TagEntries.OrderFreeIff | apps/server/internal/service/item_catalog.go:455-462 | status and members are the same in every order exactly when, whichever tag of a cycle comes first, all the tags on cycles with it end invalid |
| TagChoices.SparingVisit | apps/server/internal/service/item_catalog.go:403-462 | visiting a tag that reaches least among those not yet met decides its own cycles and no others |
| TagChoices.InvalidInEveryOrderIff | apps/server/internal/service/item_catalog.go:455-462 | every order makes a tag invalid exactly when it requires a malformed tag or when, whichever tag of some cycles is met first, one that it requires is caught |
| TagDefinitions.ParseEntry | apps/server/internal/service/item_catalog.go:171-190 | an accepted entry has a valid, namespaced id and carries the operation it was read with |
| TagDefinitions.ParsedIff | apps/server/internal/service/item_catalog.go:171-190 | an entry is read from exactly its spellings: hash for a tag, namespace left out or not, required unless a record says otherwise |
| TagDefinitions.ReplaceForgets | apps/server/internal/service/item_catalog.go:356-358 | a replacing definition that counts makes everything before it irrelevant |
| TagDefinitions.IdleDefinition | apps/server/internal/service/item_catalog.go:333-352 | a malformed or conditional definition contributes no entries and registers nothing |
| TagDefinitions.AdditionRegistered | apps/server/internal/service/item_catalog.go:382-388 | the target of a direct addition that counts is registered as an item or block |
| TagDefinitions.ExpandedMeaning | apps/server/internal/service/item_catalog.go:325-391 | expanding definitions one by one leaves the entries after the last replacement, every registered id, and a status that is invalid exactly when some definition is unreadable or an unconditional one holds an entry that spells nothing, and else partial exactly when one is conditional or sensitive to an unknown order |
| TagDefinitions.ExpandedDiagnostics | apps/server/internal/service/item_catalog.go:326-381 | exactly which diagnostics the definitions of a tag put on record, by their fields |
| TagDefinitions.RegisteredIff | apps/server/internal/service/item_catalog.go:382-388 | the registered ids are exactly those that some readable, unconditional definition adds directly, replaced later or not |
| TagDefinitions.LiveJoin | apps/server/internal/service/item_catalog.go:356-358 | definitions that replace nothing add their entries after the earlier ones |
| TagDefinitions.LiveOne | apps/server/internal/service/item_catalog.go:360-364 | one definition adds its values first and then removes, in the order of its lists |
| TagDefinitions.TagBuilder.AddEntries | apps/server/internal/service/item_catalog.go:364-389 | the loop over the entries of one definition |
| TagDefinitions.TagBuilder.AddDefinition | apps/server/internal/service/item_catalog.go:326-391 | one definition: format, conditions, load order, replacement, values, removals |
| TagDefinitions.TagBuilder.Expand | apps/server/internal/service/item_catalog.go:325-391 | all definitions of a tag in order |
| CatalogFinish.GraphClosed | apps/server/internal/service/item_catalog.go:393-400 | every tag that is referred to exists before the search starts |
| CatalogFinish.GraphUncaught | apps/server/internal/service/item_catalog.go:325-400 | before the search no tag carries the diagnostic for cycles and depth |
| CatalogFinish.GraphStartsClean | apps/server/internal/service/item_catalog.go:325-400 | before the search no diagnostic is on record against a resolved tag |
| CatalogFinish.ResolvedIsDefined | apps/server/internal/service/item_catalog.go:393-429 | in a finished catalog a resolved tag requires, however far, only tags that are defined and that their own definitions leave resolved |
| CatalogFinish.AdditionsFound | apps/server/internal/service/item_catalog.go:430-436 | a direct addition that counts always finds its target in the catalog |
| CatalogFinish.GraphBuilder.ExpandAll | apps/server/internal/service/item_catalog.go:324-392 | in whatever order the map is walked, each tag gets its own entries and status and every addition is registered |
| CatalogFinish.GraphBuilder.AddMissing | apps/server/internal/service/item_catalog.go:393-400 | exactly the tags that are only referred to are added, as missing |
| CatalogFinish.InverseUnique | apps/server/internal/service/item_catalog.go:464-475 | the inverse lists are determined by the members |
| CatalogFinish.ListHolders | apps/server/internal/service/item_catalog.go:464-477 | each item and block lists, sorted and without repetition, exactly the tags that hold it |
| CatalogFinish.Finish | apps/server/internal/service/item_catalog.go:322-477 | the finished catalog: defined and referenced tags, visited in file order, members in the tag's registry, both directions inverse to each other, members as the search leaves them; a resolved tag requires defined tags only |
| CatalogFinish.ReadTags | apps/server/internal/store/catalog_repo.go:439-456 | scanning the member rows in order rebuilds the members of each tag and both inverse lists |
| CatalogFinish.ReadBack | apps/server/internal/store/catalog_repo.go:223-228 | what is read after storing a coherent catalog equals what was stored, in both directions |
| Kahn.EnteringZero | apps/server/internal/service/content.go:855-859 | the incoming count of a node is zero exactly when no remaining edge enters it |
| Kahn.Take | apps/server/internal/service/content.go:861-865 | taking a node from the queue keeps every count equal to the edges that still enter, each node being taken once |
| Kahn.Drop | apps/server/internal/service/content.go:865-870 | lowering one count, and queueing a node whose count reaches zero, keeps the invariant of the inner loop |
| Kahn.Exhausted | apps/server/internal/service/content.go:872 | when the queue is empty, fewer nodes than there are have been taken exactly when the graph is cyclic |
| Kahn.CountTaken | apps/server/internal/service/content.go:860-874 | Kahn's loop ends, for every iteration order, having taken fewer nodes than there are exactly when the multigraph has a directed cycle |
| QuestValidation.KeptPairsAre | apps/server/internal/service/content.go:833-849 | the edges left after filtering are those with two different known ends, repetitions counted |
| QuestValidation.CheckChapters | apps/server/internal/service/content.go:771-783 | chapters are reported exactly for empty or repeated ids, repeated positions, negative positions |
| QuestValidation.CheckNode | apps/server/internal/service/content.go:788-825 | a node is reported exactly for its id, chapter, place, requirement, minimum, rewards and references |
| QuestValidation.CheckRewards | apps/server/internal/service/content.go:809-815 | rewards are reported exactly when one is invalid |
| QuestValidation.CheckRefs | apps/server/internal/service/content.go:816-825 | mod references are reported exactly when one is unknown or of another pack |
| QuestValidation.CheckNodes | apps/server/internal/service/content.go:784-826 | all nodes, against the ids and places of those before them |
| QuestValidation.CheckEdges | apps/server/internal/service/content.go:832-849 | edges are reported exactly for missing ends, self edges and repetitions; the others become adjacency lists and incoming counts |
| QuestValidation.CheckOrphans | apps/server/internal/service/content.go:875-881 | isolated nodes are reported exactly when there is one among several nodes |
| QuestValidation.ValidateQuest | apps/server/internal/service/content.go:767-884 | the codes reported are exactly those the draft deserves; "cycle" exactly when the kept edges have a directed cycle |
| QuestReports.ReportedIff | apps/server/internal/service/content.go:767-884 | a draft is reported for a code exactly when it meets the condition for it, written out for each of the fourteen codes in terms of the draft's fields |
| RevisionLog.AppendSound | apps/server/internal/store/content_repo.go:181-184 | appending a draft keeps the numbers 1..n, the single applied revision and everything written before |
| RevisionLog.PromoteSound | apps/server/internal/store/content_repo.go:216-234 | promoting keeps the log sound and rewrites nothing but states, forward only |
| RevisionLog.PromoteChanges | apps/server/internal/store/content_repo.go:478-486 | the promoted revision becomes applied, the active one archived, every other keeps its state |
| RevisionLog.PromoteNewer | apps/server/internal/store/content_repo.go:216-234 | a promotion makes a revision above n used exactly when the promoted one is above n |
| RevisionLog.PromoteOverNewer | apps/server/internal/store/content_repo.go:216-234 | promoting revision n leaves a newer one archived exactly when one had been used |
| RevisionLog.ArchiveApplied | apps/server/internal/store/content_repo.go:227 | exactly the applied rows become archived |
| RevisionLog.MarkApplied | apps/server/internal/store/content_repo.go:230 | exactly the named row becomes applied |
| RevisionLog.StateOf | apps/server/internal/store/content_repo.go:218-226 | finds the state of a revision, or that there is none |
| RevisionLog.PromoteDraft | apps/server/internal/store/content_repo.go:216-241 | one transaction: only a draft is promoted, the applied revision archived, the active id set; otherwise nothing changes |
| QuestStore.LogicalPhysical | apps/server/internal/service/content.go:756-762 | the logical id is recovered from the physical one |
| QuestStore.ChaptersInserted | apps/server/internal/store/content_repo.go:324-334 | inserted chapters are appended as given, with distinct ids and positions |
| QuestStore.NodesInserted | apps/server/internal/store/content_repo.go:335-347 | inserted nodes are appended as given, with distinct ids, distinct places and an existing chapter each |
| QuestStore.EdgesInserted | apps/server/internal/store/content_repo.go:348-354 | inserted edges are appended as given, with distinct ids and two different existing ends each |
| QuestAccepted.ChaptersIff | apps/server/internal/store/content_repo.go:324-334 | the chapters of a draft are all inserted exactly if their positions are not negative, ids and positions are distinct and no stored row has one of their physical ids |
| QuestAccepted.NodesIff | apps/server/internal/store/content_repo.go:335-347 | the nodes exactly if also each names a chapter of the draft and no two share a place in it |
| QuestAccepted.EdgesIff | apps/server/internal/store/content_repo.go:348-354 | the edges exactly if each joins two different nodes of the draft and no two join the same in the same direction |
| QuestAccepted.SavedIff | apps/server/internal/store/content_repo.go:296-368 | a save succeeds exactly with the latest number expected, a new id and such a draft; it is stale exactly with another number expected; failing, it writes nothing |
| QuestRepo.Repository.LatestNumber | apps/server/internal/store/content_repo.go:309-312 | the latest revision number, zero if there is none |
| QuestRepo.Repository.InsertChapterRows | apps/server/internal/store/content_repo.go:324-334 | the loop over chapters, stopping at the first row a constraint refuses |
| QuestRepo.Repository.InsertNodeRows | apps/server/internal/store/content_repo.go:335-347 | the loop over nodes, chapters looked up by their logical ids |
| QuestRepo.Repository.InsertEdgeRows | apps/server/internal/store/content_repo.go:348-354 | the loop over edges, ends looked up by their logical ids |
| QuestRepo.Repository.SaveQuestDraft | apps/server/internal/store/content_repo.go:296-368 | one transaction: with the latest number expected and all constraints met, a draft revision and its rows are appended; otherwise nothing is written (`QuestAccepted.SavedIff` says when, `QuestRoundTrip.LoadSaved` what is read back) |
| QuestRepo.Repository.ApplyQuest | apps/server/internal/store/content_repo.go:466-486 | one transaction: a draft becomes the applied revision, the one before is archived |
| QuestRoundTrip.SavedConsistent | apps/server/internal/store/content_repo.go:296-368 | saving keeps the log sound and every row with a revision of its own |
| QuestRoundTrip.SavedRows | apps/server/internal/store/content_repo.go:318-354 | the new revision has exactly the rows of the draft, every other keeps its own |
| QuestRoundTrip.SavedWellKeyed | apps/server/internal/store/content_repo.go:324-354 | only drafts whose references resolve and whose places are distinct are stored |
| QuestRoundTrip.SavedLoads | apps/server/internal/store/content_repo.go:371-415 | a saved revision can always be loaded |
| QuestRoundTrip.LoadSaved | apps/server/internal/service/content.go:733-762 | loading a saved revision yields the chapters, nodes and edges of the draft, ordered by position, by chapter and position, and by id, and its book data unless title, icon and mode are all empty |
| QuestRoundTrip.SortedFormUnique | apps/server/internal/service/content.go:929-939 | a draft has one sorted form |
| QuestRoundTrip.LoadStable | apps/server/internal/store/content_repo.go:396-463 | saving does not change what other revisions load |
| QuestRoundTrip.RollbackRestores | apps/server/internal/service/content.go:692-707 | saving what a target loads gives a revision that loads the very same draft |
| QuestRuns.Admit | apps/server/internal/service/content.go:604-611 | a draft is refused exactly for the listed codes; a cycle is not among them |
| QuestRuns.ApplicableIffNotBlocking | apps/server/internal/service/content.go:677-679 | a revision may be applied exactly when no issue is an error |
| QuestAdmission.AdmittedIff | apps/server/internal/service/content.go:604-611 | a draft is admitted exactly when it deserves none of eight codes, each in terms of its fields |
| QuestAdmission.ApplicableIff | apps/server/internal/service/content.go:677-679 | a draft may be applied exactly when it deserves nothing but to be told of isolated nodes |
| QuestAdmission.SubmittedIff | apps/server/internal/service/content.go:593-637 | a save through the service adds a revision exactly when the draft is admitted and storable, the number is the latest and the id new |
| QuestAdmission.ApplyPromotes | apps/server/internal/service/content.go:668-691 | applying promotes the revision that the call had read if it is still a draft, and writes nothing else |
| QuestAdmission.StoredIsPlayable | apps/server/internal/service/content.go:604-611 | in every run the rewards of every stored node can be granted and its requirement is known |
| QuestGraph.LoadedCyclic | apps/server/internal/service/content.go:752-754 | the loaded draft has a cycle exactly when the stored edge rows have one |
| QuestRuns.SubmitGood | apps/server/internal/service/content.go:593-637 | a save through the service keeps the invariant and the graph of every earlier revision |
| QuestRuns.ApplyGood | apps/server/internal/service/content.go:668-691 | applying a revision with an acyclic graph keeps the invariant |
| QuestRuns.RunGood | apps/server/internal/service/content.go:593-707 | every interleaving of save, apply and rollback steps keeps the invariant |
| QuestRuns.AppliedIsAcyclic | apps/server/internal/service/content.go:668-691 | in every run, whatever is or was applied has an acyclic graph as stored |
| QuestRuns.AppliedLoadsAcyclic | apps/server/internal/service/content.go:668-691 | ... and as loaded |
| QuestRuns.RunSound | apps/server/internal/store/content_repo.go:296-493 | in every run the revisions are numbered 1..n, at most one is applied, and the active id is its own |
| QuestRuns.RunKeeps | apps/server/internal/store/content_repo.go:296-493 | rows once written stay as they are, states only move forward |
| QuestHistory.RollbackIsExact | apps/server/internal/service/content.go:692-707 | however the three steps of a rollback lie among those of other calls: once stored, the new revision loads, then and ever after, exactly what the target loaded when it was read; nothing was saved since the current number was read |
| QuestHistory.RollbackStoredIff | apps/server/internal/service/content.go:692-707 | a rollback is stored exactly when nothing has been saved since it read the current number, its id is new, and the target's draft is still admitted and storable |
| QuestHistory.LoadsForever | apps/server/internal/store/content_repo.go:371-463 | a stored revision loads the same in every later state of every run |
| QuestHistory.NewerSinceRead | apps/server/internal/service/content.go:668-691 | when a call commits the revision it read, a newer one has been used exactly if another commit has promoted a newer one since |
| QuestHistory.OlderOverNewerIff | apps/server/internal/service/content.go:668-691 | the commit leaves a newer revision archived below an older one exactly in that case |
| QuestRuns.OneSaveWins | apps/server/internal/store/content_repo.go:313-315 | of two saves made with one expected number at any two points of a run at most one is stored; the other writes nothing |
| CyclicDraft.CyclicDraftIsSaved | apps/server/internal/service/content.go:604-611 | a draft with a cycle is admitted and stored |
| ContentLog.SaveTwice | apps/server/internal/store/content_repo.go:174-180 | saving an equal payload again appends nothing; repeating the first call is stale |
| ContentLog.RollbackRestores | apps/server/internal/store/content_repo.go:250-275 | a rollback appends the target's payload as the latest draft, names its source, and leaves the active id and other documents alone |
| ContentLog.SavedIff | apps/server/internal/store/content_repo.go:165-196 | exactly when a save is absent, stale, unchanged or appended; appended, the payload is the latest draft under the next number, and nothing else has changed |
| ContentLog.CreatedIff | apps/server/internal/store/content_repo.go:106-119 | exactly when a document is created, with its first draft under number 1 |
| ContentLog.RolledBackIff | apps/server/internal/store/content_repo.go:250-275 | exactly when a rollback succeeds |
| ContentLog.AppliedIff | apps/server/internal/store/content_repo.go:216-247 | applying succeeds exactly for a draft of the document and touches no other document |
| ContentLog.AppliedRevision | apps/server/internal/store/content_repo.go:227-234 | the revision becomes applied, the one active before archived, the others stay as they are |
| ContentRuns.SlugsDistinct | apps/server/internal/store/content_repo.go:106-113 | in every run no two documents have the same kind and slug |
| ContentRuns.AppliedWasValid | apps/server/internal/service/content.go:220-259 | in every run each document's log is sound and whatever is or was applied has passed validation |
| ContentRuns.RunGrows | apps/server/internal/store/content_repo.go:165-275 | later events lose no document and rewrite no revision |
| ContentRuns.OlderCanApplyLast | apps/server/internal/service/content.go:245-254 | a run in which the older revision ends up applied and the newer archived |
| ContentRuns.NewerSinceRead | apps/server/internal/service/content.go:220-259 | when a call commits the revision it read, a newer one has been used exactly if another commit has promoted a newer one since |
| ContentRuns.OlderOverNewerIff | apps/server/internal/service/content.go:220-259 | the commit leaves a newer revision archived below an older one exactly in that case |
| ContentLog.Repository.LatestRow | apps/server/internal/store/content_repo.go:169 | the row with the highest number |
| ContentLog.Repository.CreateContentDocument | apps/server/internal/store/content_repo.go:106-119 | a document and its first draft, unless id or kind and slug are taken |
| ContentLog.Repository.SaveContentDraft | apps/server/internal/store/content_repo.go:165-196 | absent, stale, unchanged or appended, as the latest revision decides |
| ContentLog.Repository.ApplyContent | apps/server/internal/store/content_repo.go:216-247 | promotion of a draft of one document |
| ContentLog.Repository.RollbackContent | apps/server/internal/store/content_repo.go:250-275 | the target is looked up by id and its payload appended |
| Sha1.PaddingIsLeast | launcherCore/src/download/item.rs:118-122 | the number of zero bytes is the least that solves the equation of section 5.1.1 of FIPS 180-4 |
| Sha1.BigEndianByte | launcherCore/src/download/item.rs:117-122 | byte i of a number written in k bytes is its digit to the base 256 of weight k - 1 - i |
| Sha1.LengthField | launcherCore/src/download/item.rs:117-122 | the last eight bytes of the padded message, read most significant first, are the bit length modulo 2 to the 64th, and the bit length itself below 2 to the 61st bytes |
| Sha1.WordValue | launcherCore/src/download/item.rs:141-143 | a word is four bytes read most significant first |
| Sha1KnownAnswer.HexABC | launcherCore/src/download/item.rs:193-200 | the digest of abc prints as published, worked out from the specification round by round |
| Sha1.HexInjective | launcherCore/src/download/item.rs:133-136 | different digests print differently |
| Sha1Stream.LauncherFIsF | launcherCore/src/download/item.rs:151-156 | the launcher's round function, written with ors, is that of section 4.1.1 of FIPS 180-4 |
| Sha1Stream.Schedule | launcherCore/src/download/item.rs:140-146 | the schedule array holds the words of section 6.1.2 of FIPS 180-4 |
| Sha1Stream.RunRounds | launcherCore/src/download/item.rs:148-169 | the 80 rotations of five variables are the rounds of the standard |
| Sha1Stream.Sha1Hasher.ProcessBlock | launcherCore/src/download/item.rs:139-176 | one block is compressed into the state |
| Sha1Stream.Sha1Hasher.Update | launcherCore/src/download/item.rs:105-113 | whatever the pieces, state, buffer and counter stand for the bytes so far, the buffer holding fewer than 64 |
| Sha1Stream.Sha1Hasher.Pad | launcherCore/src/download/item.rs:117-122 | the buffer ends with the padding of the whole message, the bit length counted modulo 2 to the 64th; what its last eight bytes stand for is `Sha1.LengthField` |
| Sha1Stream.Sha1Hasher.Finalize | launcherCore/src/download/item.rs:115-137 | the digest of everything fed in, in hexadecimal; on the message of `Sha1KnownAnswer.HexABC` this is the published value |
| Sha1Stream.Sha1File | launcherCore/src/download/item.rs:72-87 | the digest of a file does not depend on how reads cut it; a read error yields none |
| Sha1Stream.ShouldSkip | launcherCore/src/download/item.rs:53-68 | a download is skipped exactly when the file is there and, if a digest is expected, can be read and has it |
| Sha1Stream.SkippedMatches | launcherCore/src/download/item.rs:53-68 | with the digest of a published file expected, a download is skipped exactly when the file in place can be read and has that digest |
| ReleaseTable.Repository.CreateRelease | apps/server/internal/store/publish_repo.go:297-305 | a row is inserted unless its key (or id) is in use |
| ReleaseTable.Repository.SetReleasePublishing | apps/server/internal/store/publish_repo.go:323-333 | exactly a pending or failed row becomes publishing, and success says so |
| ReleaseTable.Repository.FinishRelease | apps/server/internal/store/publish_repo.go:337-353 | exactly a publishing row takes the outcome, unless its remote id is taken |
| ReleaseTable.WordIsRead | apps/server/internal/service/publish.go:364-373 | a reply means succeeded or failed exactly for the listed words, in any case and with white space around, and publishing otherwise |
| ReleaseProtocol.RunGood | apps/server/internal/service/publish.go:135-322 | every interleaving of publish, retry and poll steps, with calls stopping anywhere, keeps one row for each key, the balance of reservations and failures, and one reservation for each provider call; outcomes are `ReleaseOutcomes` |
| ReleaseProtocol.ReservationsOwned | apps/server/internal/service/publish.go:215-236 | one row for each provider and key; every provider call has a successful reservation of its own |
| ReleaseProtocol.CallsBounded | apps/server/internal/service/publish.go:135-322 | provider calls are at most the reservations, and these at most one plus the entries into failed |
| ReleaseProtocol.RunKeeps | apps/server/internal/store/publish_repo.go:323-353 | nothing returns to pending, and identity and target of a row never change |
| ReleaseProtocol.SuccessIsFinal | apps/server/internal/store/publish_repo.go:323-353 | a succeeded row is final and is never reserved again |
| ReleaseOutcomes.OwnedOutcome | apps/server/internal/service/publish.go:222-251 | a call that holds a publishing release records what it was answered: a local one succeeds under its artifact, a failed or impossible call fails it without a remote id, a reply gives it the status its text means and its remote id unless it failed or the id is taken |
| ReleaseOutcomes.PolledOutcome | apps/server/internal/service/publish.go:293-322 | a poll records the status and remote id that it reads unless the id is taken; without an answer nothing changes |
| ReleaseOutcomes.MissingOutcome | apps/server/internal/service/publish.go:209-214 | a call that misses the file leaves the release failed, unless it has succeeded, and calls nobody |
| ReleaseOutcomes.NewIsMade | apps/server/internal/service/publish.go:160-183 | a request under a new key makes a pending row and goes on with it |
| ReleaseOutcomes.RepeatIsIdle | apps/server/internal/service/publish.go:177-182 | a repeated request does nothing |
| ReleaseOutcomes.IdleUnlessDue | apps/server/internal/service/publish.go:187-303 | only a failed release is retried, only a publishing one that is not local is polled |
| ReleaseOutcomes.ReservedOrOver | apps/server/internal/service/publish.go:215-226 | a call holds the release after its reservation if the release was pending or failed, and is over otherwise |
| ReleaseOutcomes.RemotesDistinct | apps/server/internal/store/publish_repo.go:337-353 | in every run no two releases of a provider carry the same remote id |
| ReleaseOutcomes.SuccessWasHeard | apps/server/internal/service/publish.go:229-322 | in every run a succeeded release is local and carries its artifact id, or a call or poll on it has read a word of success with its remote id |
| ReleaseOutcomes.FailureWasMet | apps/server/internal/service/publish.go:208-322 | in every run a failed release has met a missing file, a call without an answer or a word of failure |
| ReleaseOutcomes.LocalIsNotCalled | apps/server/internal/service/publish.go:222-229 | in every run the provider has never been called for a local release |
| ReleaseAttempts.QuietRunsExclusive | apps/server/internal/service/publish.go:208-251 | without polls and missing files at most one call at a time holds a release, and the release is then publishing |
| ReleaseAttempts.StepGuarded | apps/server/internal/service/publish.go:208-322 | a step leaves a release with at most one holder, and not reservable while held, unless another call makes it failed under its holder |
| ReleaseAttempts.SecondOwnerWasLetIn | apps/server/internal/service/publish.go:208-322 | in every run two calls hold a release only after a poll or a missing file has made it failed while a call held it |
| ReleaseAttempts.UndisturbedIsPublishing | apps/server/internal/service/publish.go:293-322 | polls that read "publishing" disturb nobody: the one holder finds the release publishing |
| ReleaseAttempts.LetInIsSecondOwner | apps/server/internal/service/publish.go:208-251 | after a release was made failed under its holder, a retry by a fresh call gives it a second one |
| ReleaseAttempts.PollBreaksExclusion | apps/server/internal/service/publish.go:293-322 | a run in which a poll lets a second call start beside the first |
| ReleaseAttempts.MissingFileBreaksExclusion | apps/server/internal/service/publish.go:209-214 | a run in which a missing file ends the attempt of another call |
| GenerationProtocol.PublishOneReady | apps/server/internal/store/catalog_generation_repo.go:169-177 | publishing succeeds at the expected revision under a new id, and the new generation is then the only ready one and current; otherwise nothing changes |
| GenerationProtocol.RunGood | apps/server/internal/service/item_catalog.go:625-723 | in every run at most one generation is ready, the current id is null or its own, and everything built is right while its source revision lasts |
| GenerationProtocol.ServedIsCurrent | apps/server/internal/store/catalog_repo.go:280-301 | whatever is served was built from the sources as they are now |
| GenerationHistory.ServedAfterEdit | apps/server/internal/store/pack_repo.go:160-163 | after an invalidating edit nothing is served until a rebuild has read the configuration revision after it, replaced the catalog and published its generation, no other step moving that call |
| GenerationHistory.ServedAfterSources | apps/server/internal/store/catalog_repo.go:155-163 | after an edit of the sources nothing is served until a rebuild that read them after the edit has replaced the catalog, and then its catalog is served |
| GenerationHistory.LateRebuildIsRefused | apps/server/internal/store/catalog_repo.go:155-163 | a rebuild whose sources or configuration have changed since it read them ends without a trace |
| GenerationHistory.ServedStays | apps/server/internal/store/catalog_repo.go:280-301 | in every run a served catalog stays served, whatever rebuilds do, until something is edited |
| GenerationHistory.RunKeeps | apps/server/internal/store/catalog_generation_repo.go:169-177 | in every run a published generation is kept as it was built, and a superseded one is not made ready again |
| GenerationProtocol.RebuildIsServed | apps/server/internal/service/item_catalog.go:613-725 | an uninterrupted rebuild is served, from any state |
| GenerationProtocol.CurrentMayLag | apps/server/internal/store/catalog_generation_repo.go:15-23 | a run in which the current generation was built before the last edit while the right catalog is served |
| GenerationProtocol.CurrentRightAtRevision | apps/server/internal/store/catalog_generation_repo.go:24 | a generation made from the current source revision holds the current catalog |
| GenerationProtocol.Repository.InvalidatePackGeneration | apps/server/internal/store/pack_repo.go:160-163 | the revision rises by one and the current id is cleared |
| GenerationProtocol.Repository.ReplaceCatalog | apps/server/internal/store/catalog_repo.go:155-163 | the catalog is swapped exactly when its source revision is still current |
| GenerationProtocol.Repository.PublishCatalogGeneration | apps/server/internal/store/catalog_generation_repo.go:15-179 | at the expected revision, ready generations are superseded and the new one becomes ready and current; otherwise nothing changes |
| ArchivePaths.PathCleanSlash | apps/server/internal/service/build.go:537-555 | the loop over the segments with its stack |
| ArchivePaths.CleanShape | apps/server/internal/service/build.go:540-553 | cleaned segments are proper names, but the first may go up |
| ArchivePaths.CleanIdempotent | apps/server/internal/service/build.go:537-555 | cleaning a cleaned path changes nothing |
| ArchivePaths.UpsCancelInPairs | apps/server/internal/service/build.go:544-549 | the usual rule and this one keep the same proper names; of the leading ups this one keeps their number modulo two |
| ArchivePaths.CleanIsStandardIff | apps/server/internal/service/build.go:544-549 | the two rules agree exactly on paths that go up at most one level in the end |
| ArchivePaths.SafeSegments | apps/server/internal/service/build.go:522-535 | an accepted path is a nonempty list of segments none of which is empty, "." or ".." |
| ArchivePaths.SafeIff | apps/server/internal/service/build.go:522-535 | a path is accepted exactly when it is not empty, holds no zero byte, starts with no slash of either kind, has no colon in second place, and cleans to something that does not go up |
| ArchivePaths.SafeStable | apps/server/internal/service/build.go:527-531 | an accepted path is accepted unchanged exactly when it does not look like a drive |
| BuildManifest.ValidateBuildInput | apps/server/internal/service/build.go:405-421 | accepted exactly when pack, version and directory are not blank, files are given, each has a safe path and at most 512 MiB, and no two clean to the same path |
| Blanks.BlankTextIff | apps/server/internal/service/build.go:406 | trimming leaves nothing exactly of texts made of Unicode white space |
| Blanks.WhiteIff | apps/server/internal/service/build.go:406 | the bytes that count as a white space character are exactly the UTF-8 forms of those that Unicode calls so |
| BuildManifest.BuildManifest | apps/server/internal/service/build.go:423-470 | the manifest lists exactly the cleaned files in path order with hash and size, beside the lock file, content, quest and configuration snapshots, each normalised on its own |
| BuildManifest.SameContentsSameManifest | apps/server/internal/service/build.go:432 | the order in which files are given does not matter |
| BuildManifest.SameManifestSameContents | apps/server/internal/service/build.go:449-470 | with an injective hash, equal manifests come from equal contents and equal snapshots |
| BuildManifest.ManifestsEqualIff | apps/server/internal/service/build.go:449-472 | two manifests are equal exactly when the contents of the paths are and each of the four normalised snapshots is |
| BuildRecords.RecordDone | apps/server/internal/store/publish_repo.go:177-203 | after recording, the version has exactly the inputs of the build |
| BuildRecords.SameSnapshots | apps/server/internal/service/build.go:329-374 | in every run all artifacts of a version were built from the same four snapshots |
| BuildRecords.RunKeeps | apps/server/internal/store/publish_repo.go:252-261 | one artifact row for each version and fingerprint; recorded inputs and registered artifacts never change |
| BuildRecords.KnownIsReused | apps/server/internal/service/build.go:314-324 | a build whose fingerprint is registered for the version is not made again |
| BuildRecords.Repository.RecordBuildInputs | apps/server/internal/store/publish_repo.go:177-203 | all four inputs are recorded, or a contradiction undoes the transaction |
| BuildRecords.Repository.RegisterArtifact | apps/server/internal/store/publish_repo.go:252-261 | the first row of a version and fingerprint stays |
| ImportConfirm.Repository.ConsumeImportPreview | apps/server/internal/store/import_repo.go:37-70 | consumed exactly when token and input match, it is not consumed and not expired |
| ImportConfirm.Repository.SetImportPreviewConsumedTask | apps/server/internal/store/import_repo.go:74-80 | the task is recorded on that preview only |
| ImportConfirm.ConsumedOnce | apps/server/internal/service/import_service.go:137-195 | in every run a preview is consumed at most once, before it expires, and gets at most one task |
| ImportConfirm.SameAnswer | apps/server/internal/service/import_service.go:157-195 | all successful calls on a preview answer with the same task |
| ImportConfirm.OpenIsConfirmed | apps/server/internal/service/import_service.go:137-195 | a call with the token and hash of a preview that is neither consumed nor expired is answered with a new task recorded for it, if nothing comes between |
| ImportConfirm.StrangerIsRefused | apps/server/internal/service/import_service.go:154-159 | a call with another token or hash leaves no trace |
| ImportConfirm.LateIsRefused | apps/server/internal/service/import_service.go:160-172 | nor does a late call, or one on a preview consumed without a recorded task |
| ImportConfirm.RecordedIsReplayed | apps/server/internal/service/import_service.go:160-169 | a later call is answered with the recorded task while the task is there |
| ImportConfirm.LoserIsReplayed | apps/server/internal/service/import_service.go:173-183 | a call that loses the race is answered with the winner's task if it is recorded by then |
| ImportConfirm.KnownKeyOutcome | apps/server/internal/service/import_service.go:186-194 | a key that has queued a task for the preview gives that task and makes none; any other known key ends the call |
| ImportConfirm.AnsweredWasPresented | apps/server/internal/service/import_service.go:147-195 | in every run whoever is answered about a preview has presented its token and hash |
| ImportConfirm.LostWinnerStrands | apps/server/internal/service/import_service.go:171-193 | a preview is stranded when the call that consumed it stops, before or after submitting the task, or when the queue refuses the task |
| ImportConfirm.StrandedExactlyBy | apps/server/internal/service/import_service.go:137-193 | in every run a step strands a preview exactly in those cases |
| ImportConfirm.StrandedIff | apps/server/internal/service/import_service.go:157-193 | in every run a consumed preview is stranded exactly when no task is recorded for it and no call that consumed it is under way |
| ImportConfirm.StrandedForever | apps/server/internal/service/import_service.go:157-166 | no confirmation of a stranded preview ever succeeds |
| IconTags.FoundByEntries | apps/server/internal/service/item_icon_tags.go:56-79 | a tag finds an item exactly when it is open and one of its entries does, with the tag among those visited |
| IconTags.FoundFromStart | apps/server/internal/service/item_icon_tags.go:57-61 | from a fresh start the search is complete: any chain of at most 32 tags counts, repetition or not |
| IconTags.Resolver.Resolve | apps/server/internal/service/item_icon_tags.go:56-79 | the backtracking visit finds an item if there is one, and leaves the set of visited tags as it was |
| IconTags.Resolver.TryEntries | apps/server/internal/service/item_icon_tags.go:62-77 | the first entry that finds an item decides |
| IconTags.TagIcons | apps/server/internal/service/item_icon_tags.go:50-88 | a tag gets an icon exactly when a chain of at most 32 tags leads to one with an available direct member, and the icon is reached that way; an empty member that counts as available ends the entries of its tag |
| IconTags.AddTags | apps/server/internal/service/item_icon_tags.go:20-36 | a tag holds the values of its files since the last replacing one |
| Paging.ListModContent | apps/server/internal/store/mod_content_repo.go:126-171 | a page is the first rows after the cursor; the next cursor is its last id, and empty exactly when nothing follows |
| Paging.FollowingRest | apps/server/internal/store/mod_content_repo.go:146-149 | what follows the n-th row is what is left of the ordered rows |
| Paging.ReadAll | apps/server/internal/store/catalog_repo.go:131-147 | following the cursors ends and yields every row of the pack and mod, and of the kind if one is given, once and in id order |
| SearchPairing.PairSearchItems | apps/server/internal/service/mods.go:319-355 | downloads are conserved key by key, the list gets no longer, mirrors are listed projects of another platform under the same key, only the first card of a key has one, and a key has one exactly if items of two platforms share it |
| SearchPairing.SameKeyIff | apps/server/internal/service/mods.go:320-333 | two items come under one key exactly when the last identities that name them are the same pair, or none names either and their folded names agree |
| SearchPairing.MergeCards | apps/server/internal/service/mods.go:326-353 | the loop over the items with the place and platform of each key's first card |
| SearchPairing.JoinKeeps | apps/server/internal/service/mods.go:343-351 | joining an item of the other platform conserves downloads and keeps the card's key |

## Left out

- JSON, ZIP, hashing other than SHA-1, the task queue's leases, HTTP, provider adapters, icon rendering: payloads are parsed data, a hash is a function, a provider's answer is an event.
- Localised names, recipes, models and blockstates of the catalog: `finish` is modelled for tags, items and blocks.
- The texts of diagnostics, the definition and position of catalog entries, and the evidence rows written beside every change.
- TagResolution.Resolver.VisitAll: exactness is stated for graphs in which no simple chain of references is longer than 128, because the code turns deeper tags invalid; soundness, `TagCycles.EveryCycleSpoilt` and `TagDepth.InvalidKeepsMembersOnlyDeep` hold without that condition.
- TagEntries.OrderFreeIff: like the other statements about orders of visits it is made for such graphs; nothing is stated about orders beyond the cap.
- The overflow of the byte counter of the hasher: it wraps as in a release build; a debug build would stop.
- QuestStore models one pack, and reads a revision in one step: its rows never change after they are written.
- Quest node lists of prerequisites, references and tasks are sequences of decoded values; the encoding of optional fields is taken to lose only the difference between absent and empty book data.
- The state of a release as the provider describes it, and the reply to a key reused for another target: neither changes a row.
- GenerationProtocol.RunGood: the sources of a rebuild are represented by the tag definitions and the rebuild by any function from them to a catalog; that an edit of an input row raises the source revision is the triggers' doing (apps/server/internal/store/migrations/0013_item_catalog.sql) and part of the edit step.
- The mirrored rows of a catalog generation are one value; how its entries choose winners is not modelled.
- The files of builds and imports: only the rows about them are modelled, with a build's file written between recording and registering.
- IconTags.TagIcons: the path of a tag file is given as the id read from it, and the three built-in representatives are not added.
- Paging.ReadAll: the table does not change while it is read, and ids are not empty.
- The folding of mod names: the folded name is a field of a search result.
