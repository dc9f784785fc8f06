# Verification of the structural inference engine

This project models the engine under `src/inspection/` that turns an untrusted SQLite main
file into a graph of claims, relationships and traversals, keeps that graph in a store that
spills to disk, and publishes revisions of it. Each Dafny module stands for one component; the
loops and objects of the program are methods and classes that update their state in place, and
each is proved against a specification whose own properties are lemmas. `dafny verify
dfyconfig.toml` checks everything.

**How the outside is modelled.** A file is a sequence of bytes, or words that may be
unreadable. Stop requests, memory reservations, budgets and the private store's reads and
writes answer nondeterministically and latch (`Control`, `Store`). So the statements below hold
for every input and every pattern of interruptions. `control.failed` is the store's failure
latch. While it is raised a method says only what its contract still lists; what becomes of
such a run is `RevisionContents`: a spill budget that failed drops relationships, traversals
and roles, keeps claims and map entries, and is cleared before publication, and any other
failure ends the session without publication.

Some reads fail silently: a refused one looks like an empty list (`src/inspection/roles.rs`,
746-751) or like an undisputed page (499-507). Both are modelled, with lemmas that show what a
phase that reports success can then leave behind, and the proof that the phase after it
notices.

**How the parts build on one another.**

1. *Claims to links.* `BtreeClaims`, `BtreeCycles` and `BtreeTraversal` collect child claims,
   demote shared parents and cycles, and walk the trees without a visited set. `Chains`,
   `Overflow`, `OverflowOwners` and `OverflowPhase` follow overflow chains through a cache of
   next-page claims and settle owners. `Freelist` walks the trunk chain and
   `StorageReconciliation` settles what points into it. `LinkForest` and `Topology` put the
   three together: B-tree pages, overflow pages and freelist pages are three levels, links never
   lead down, so a cycle would stay within one phase.
2. *Later evidence.* `FileGeometry`, `PointerMap` and `MapReconciliation` read pointer maps and
   compare them with the claims; `Roles`, `RoleCollection`, `RolePropagation` and
   `RoleReconciliation` settle page roles with a worklist over support counters. `Inspection`
   runs all phases in order.
3. *Schema.* `Schema` attributes pages to declared objects through the retained links,
   `SchemaPayload` reads the declarations' bytes and `SchemaQueries` answers windows over the
   result. `RevisionContents` joins this to a whole inspection.
4. *Storage.* `Store`, `SpillingSequence`, `KeyCodec` and `SpillingMap` show that cache, disk
   and nested segments behave as plain sequences and maps that share one byte counter, and
   `SharedStore` that any program of operations on many of them does;
   `PageStore` does so for the page inventory and its cache; `PageIndex`, `Windows` and
   `TraversalFrames` are the queries over them.
5. *Revisions.* `SessionProtocol` is the state machine of the locked sections, with statements
   over all runs; `SessionData` shows that the sections that update the session in place are its
   steps.
6. *Bytes.* `Varints`, `PageLayout` and `FreeSpace` are the page decoder, `Reconstruction` the
   selected-cell reader, `SelectedCell` what a completed inspection promises it, `Wal` the
   write-ahead log.

Sections of the SQLite Database File Format: 1.5 (freelist), 1.6 (B-tree pages), 1.7 (overflow
pages), 1.8 (pointer maps), 2.1 (records), 4.1 and 4.2 (write-ahead log).

Three points where the code decides and a reader might expect otherwise. Role propagation is not
monotone: a page can stop being Conflicting after its dependents were revoked, so the closure at
exit is proved and independence of the order is not claimed. And an edge of a recorded B-tree
prefix need not be a relationship after role reconciliation, which is why schema attribution
checks links again; `Schema.IndexTraversal` models that check. And the two indexes of schema
attribution do not agree under every store failure: an entry can be lost while its declaration
is kept (`Schema.LostEntry`); they agree if and only if none was, and a run that lost one is
never published.

## Model

| member | source | states |
|---|---|---|
| Inspection.InspectFile | src/inspection/topology.rs:917-1048 | end to end: however the inspection is interrupted, the relationships of all kinds form one forest and the retained page identities stay within `max_total_pages`, unless the store failed; when the last phase completes, so has every earlier one, and the result follows from the file step by step: all pointers judged, every cell followed, map entries compared, roles settled, traversals cut at disputes |
| Inspection.CompletedIsSettled | src/inspection/topology.rs:1022-1048 | what a completed run leaves: every relationship has its own claim still validated, all names differ, and a claim that authorizes a link leads to a page whose role nothing disputes |
| Inspection.ReconcilePageRoles | src/inspection/topology.rs:1022-1048 | pointer maps and roles run on what the topology phases handed over; cut short, claims and map entries stay as far as they came and all relationships and traversals are withheld; map entries carry the verdicts that the role phase left |
| Inspection.InspectMaps | src/inspection/topology.rs:1022-1036 | reading, checking and comparing the maps: on completion every entry found in the file was judged by the claims as they were, and exactly the claims on the pages of refuted entries fell |
| Inspection.DemotedIsWeakened | src/inspection/pointer_map.rs:380-474 | pointer-map reconciliation only ever demotes claims, so it is a weakening in the sense of the role phase |
| Topology.Inspect | src/inspection/topology.rs:917-1012 | freelist, B-tree and overflow phases together: one forest under every stop, budget and memory answer; uninterrupted, the result is put together from complete phases, every traversal step is a retained relationship and every relationship has a validated claim; no B-tree page is missed when no budget binds; the freelist counts as complete exactly when it is sound and undisputed |
| Topology.InspectStorage | src/inspection/topology.rs:940-985 | B-tree and overflow phases share one ceiling, and each is complete when nothing binds |
| Topology.FollowFreelist | src/inspection/topology.rs:925-934 | the freelist phase: its links are a forest and it is complete if and only if the file holds a sound freelist, when nothing disturbs it |
| Topology.EveryPageRecorded | src/inspection/topology.rs:986-996 | reconciling the freelist takes no B-tree page from what the walks recorded |
| Topology.PhasesAreLayered | src/inspection/topology.rs:917-1012 | B-tree, overflow and freelist links live on three levels of pages and never lead to a lower one |
| LinkForest.LayeredForest | src/inspection/topology.rs:917-1012 | three forests on rising levels are one forest |
| LinkForest.SelectedKeepsForest | src/inspection/topology.rs:1050-1073 | any interruption of relationship normalization leaves a sub-list of the links, which is a forest again |
| LinkForest.RelationshipsOfClaims | src/inspection/topology.rs:1050-1073 | the relationships of a claim list are exactly the edges of its validated claims, one to a target if the claims are |
| Topology.NormalizeRelationships | src/inspection/topology.rs:1050-1073 | one relationship for each validated claim in order; a stop keeps a prefix |
| Topology.AllNamesApart | src/inspection/topology.rs:917-1012 | claim names of all phases together are unique, also after every demotion |
| Topology.EverythingIsBacked | src/inspection/topology.rs:917-1012 | after an uninterrupted run every step of every traversal, origin included, is a retained relationship |
| Topology.InspectTrees | src/inspection/topology.rs:943-962 | B-tree claims, relationships and walks: sound, within the aggregate ceiling, and complete when nothing binds |
| Topology.InspectChains | src/inspection/topology.rs:963-985 | the overflow phase on what the B-tree walks left of the aggregate ceiling |
| ClaimTables.ClaimTable.IndexLinks | src/inspection/topology.rs:2485-2508 | the index by target lists for every page exactly the validated claims that enter it, in order |
| ClaimTables.ClaimTable.ConflictingClaims | src/inspection/topology.rs:1410-1456 | a group of claims is demoted as a whole or not at all: a stop in the middle restores every verdict |
| ClaimTables.ClaimTable.Restore | src/inspection/topology.rs:1410-1456 | the rollback gives back the verdicts of exactly the claims already changed |
| ClaimTables.ClaimTable.Downgrade | src/inspection/topology.rs:1200-1213 | an interrupted phase withdraws every validated claim of its kind and touches no other |
| ClaimTables.ClaimTable.SetState | src/inspection/topology.rs:328-339 | an edit whose write fails leaves the stored claim unchanged |
| ClaimTables.DemotedSharedIsSingleOwner | src/inspection/topology.rs:1297-1343 | demoting every claim that shares its target leaves one owner to a page |
| ClaimTables.GroupIsShared | src/inspection/topology.rs:1297-1343 | a target names a group of several claims exactly when its claims are shared |
| ClaimTables.TargetIndexMeaning | src/inspection/topology.rs:2485-2508 | the incremental index equals the list of entering links, for every target |
| BtreeClaims.CollectBtreeClaims | src/inspection/topology.rs:1075-1157 | the collected claims are the cells' left children and the rightmost child of every interior page, in physical order, each named by its source |
| BtreeClaims.CollectedClaimsMeaning | src/inspection/topology.rs:1075-1157 | two collected claims never have the same source, and all sources are B-tree pages |
| BtreeClaims.ValidateBtreeClaims | src/inspection/topology.rs:1159-1198 | uninterrupted, the claims are the locally validated ones less shared parents and cycles; interrupted, no link is left; either way the links are sound and a forest |
| BtreeClaims.ReconciledIsForest | src/inspection/topology.rs:1159-1408 | local validation, single parents and cycle removal together leave sound links that form a forest, and change verdicts only |
| BtreeClaims.MarkDuplicateParents | src/inspection/topology.rs:1297-1343 | exactly the validated claims that share their child are demoted |
| BtreeClaims.MarkBtreeCycles | src/inspection/topology.rs:1345-1408 | exactly the validated claims on cycles of the parent function are demoted |
| BtreeClaims.WithoutCyclesAcyclic | src/inspection/topology.rs:1345-1408 | once the claims on cycles are gone no page reaches itself |
| BtreeClaims.InsideIsOnCycle | src/inspection/topology.rs:1345-1408 | a claim joins two pages of one found cycle if and only if it lies on a cycle of the parent function |
| BtreeCycles.FindCycles | src/inspection/topology.rs:2122-2182 | the list holds each cycle of the parent function exactly once and nothing else |
| BtreeCycles.Climb | src/inspection/topology.rs:2122-2182 | walking up from a page ends at the root, at an explored page or on its own path |
| BtreeCycles.CyclesComplete | src/inspection/topology.rs:2122-2182 | when every page was explored, being on a listed cycle and lying on a cycle of the parent function are the same |
| BtreeCycles.ClimbWithCycle | src/inspection/topology.rs:2122-2182 | a walk that meets its own path has found a cycle, and that is the only one its pages reach |
| BtreeTraversal.BtreeTraversals | src/inspection/topology.rs:2184-2272 | terminates without a visited set; every prefix is a simple path of validated claims from an unentered page; a page lies in the prefixes of one origin only; the retained identities stay within the ceiling; with a complete inventory and no binding limit every B-tree page is recorded |
| BtreeTraversal.Adjacency | src/inspection/topology.rs:2279-2302 | the outgoing lists and the set of entered pages are those of the validated claims |
| BtreeTraversal.TreeWalk.WalkChildren | src/inspection/topology.rs:2312-2408 | children are taken in order; each link is queued, or recorded as a stop, and paid for |
| BtreeTraversal.TreeWalk.WalkRoot | src/inspection/topology.rs:2184-2272 | one root's walk expands only pages below that root, each once, which is why it ends |
| BtreeTraversal.TreeWalk.Drain | src/inspection/topology.rs:2184-2272 | the explicit stack runs empty: each step expands a page that was not expanded before |
| BtreeTraversal.TreeWalk.Reserve | src/inspection/topology.rs:2426-2435 | pages are charged against the aggregate ceiling before they are retained |
| BtreeTraversal.EveryPageReached | src/inspection/topology.rs:2184-2272 | in an acyclic single-parent graph every page hangs below an unentered page, so walking from those misses none |
| BtreeTraversal.SharedPage | src/inspection/topology.rs:2184-2272 | two root paths that meet in a page start at the same root and agree up to it |
| Overflow.OverflowTopology.FollowChain | src/inspection/topology.rs:1655-1759 | following a chain terminates, and the page about to be visited was never visited before, so the "cycle escaped" assertion cannot fire |
| Overflow.OverflowTopology.VisitPage | src/inspection/topology.rs:1655-1759 | one page: new to the chain, charged before it is retained, and its bytes taken off what is still missing |
| Overflow.OverflowTopology.NextClaim | src/inspection/topology.rs:1830-1889 | the next-page claim of a page is made from the file once and shared by all chains through it |
| Overflow.OverflowTopology.Judge | src/inspection/topology.rs:1670-1758 | how a chain goes on: exact completion at a zero pointer, otherwise a stop for its reason, a withdrawn pointer, or the next page |
| Overflow.OverflowTopology.Withdraw | src/inspection/topology.rs:1717-1735 | a pointer back into the chain is withdrawn even when other chains used it, and all that earlier chains recorded stays explained |
| Overflow.OverflowTopology.Admit | src/inspection/topology.rs:1619-1653 | a page is admitted only within the aggregate ceiling and without a stop |
| Overflow.OverflowTopology.InspectCell | src/inspection/topology.rs:1526-1617 | a cell with an overflow pointer gets one claim and at most one chain |
| Overflow.CountPage | src/inspection/topology.rs:1655-1710 | a chain that completes has exactly as many pages as the spilled bytes need at usable size less four bytes each |
| Chains.MarkPointer | src/inspection/topology.rs:1717-1735 | withdrawing a pointer that closes a loop keeps every loop that was withdrawn before closed over intact pointers |
| Chains.WithdrawnStep | src/inspection/topology.rs:1891-1991 | a chain that runs over a withdrawn pointer met that pointer's loop from outside, at a page two validated pointers enter |
| OverflowOwners.StepNotWithdrawn | src/inspection/topology.rs:1891-1991 | before the first disputed page no step of a recorded chain was withdrawn, also not by a later chain |
| OverflowOwners.OwnersAcyclic | src/inspection/topology.rs:1891-1991 | demoting shared owners breaks the loops that no chain detected, so no overflow page reaches itself |
| OverflowOwners.CutIsValid | src/inspection/topology.rs:1949-1991 | every step of a cut chain, from the origin cell on, is a claim still validated |
| OverflowOwners.CutEnds | src/inspection/topology.rs:1949-1991 | a cut chain ends at its first dispute, and a chain not cut ends for the reason the file gives |
| OverflowOwners.CutsAreWhole | src/inspection/topology.rs:1949-1991 | after the cuts no chain stops early: each goes on as far as its claims stand |
| OverflowOwners.NoMeeting | src/inspection/topology.rs:1891-1991 | with one owner to a page, chains of different cells share no page |
| OverflowOwners.ReconcileOwners | src/inspection/topology.rs:1891-1991 | when it reports success all retained steps are validated claims, different chains share no page and the links are a forest |
| OverflowOwners.DemoteOwners | src/inspection/topology.rs:1909-1948 | exactly the claims that share a page are demoted, and the recorded boundaries are the disputed cells and pages |
| OverflowPhase.InspectOverflow | src/inspection/topology.rs:1458-1511 | the whole phase: a forest of single-owner links however it ends, retained pages within what was charged; uninterrupted, every spilling cell has its traversal, the chains are reconciled, and each one ends where the file gives the reason it names |
| Freelist.Inspect | src/inspection/freelist.rs:98-125 | accepted pages are distinct, in range, unreserved and bounded by `page_count - 1` and the ceiling; undisturbed, the reason Complete is given if and only if the file holds a freelist that the format calls sound with the header's count; the kept prefix is the longest run of validated trunks |
| Freelist.LeafSpoils | src/inspection/freelist.rs:296-325 | once a leaf was refused, no continuation makes the freelist sound |
| Freelist.TrunkSpoils | src/inspection/freelist.rs:233-328 | once the next trunk is out of range, reserved or repeated, no continuation makes the freelist sound |
| Freelist.CountSpoils | src/inspection/freelist.rs:265-291 | a trunk that counts more leaves than it can hold never belongs to a sound freelist |
| Freelist.OneCount | src/inspection/freelist.rs:330-396 | a header's first trunk fixes the freelist and its number of pages, so the count comparison decides |
| Freelist.Inspector.Run | src/inspection/freelist.rs:233-328 | the walk ends on every file, since each round accepts a new page |
| Freelist.Inspector.ReadLeaves | src/inspection/freelist.rs:296-325 | a bad leaf does not end its trunk; an unreadable word or an interruption does |
| Freelist.Inspector.ValidateReference | src/inspection/freelist.rs:421-500 | stop, budget, range, reserved pages and repeats are refused in that order, each with its own verdict |
| Freelist.Inspector.Validate | src/inspection/freelist.rs:502-563 | acceptance records the page once, through the claim that named it |
| Freelist.Inspector.RepeatedClaim | src/inspection/freelist.rs:565-619 | of two trunk claims only the later falls as a cycle; in every other repeat both fall and the page is disputed |
| Freelist.Inspector.Finish | src/inspection/freelist.rs:330-396 | a count mismatch spoils completeness, and the traversal keeps the trunks before the first claim that fell |
| Freelist.CleanIsSound | src/inspection/freelist.rs:233-396 | a walk without fault that ended at zero accepted exactly the pages of a sound freelist |
| Freelist.OrderedIsForest | src/inspection/freelist.rs:421-563 | accepting each page through one claim, later than its source, leaves a forest |
| Freelist.AcceptedFit | src/inspection/freelist.rs:233-328 | accepted pages fit the file without its header page |
| Freelist.KeptIsPath | src/inspection/freelist.rs:330-396 | the kept trunks are a path of links that starts on page 1 |
| Freelist.NameNext | src/inspection/freelist.rs:178-202 | a claim's name is the page and offset it was read from, so a trunk read once names each claim once |
| ClaimTargets.IndexClaimTargets | src/inspection/topology.rs:2485-2508 | the index by target lists the claims that name a page, whatever their verdict |
| StorageReconciliation.ReconcileStorage | src/inspection/freelist.rs:666-747 | every claim that points into the freelist falls together with the freelist claims of that page; the links and traversals built on them are cut at the first page that lost its claim |
| StorageReconciliation.CompareClaims | src/inspection/freelist.rs:680-738 | exactly the disputing storage claims and the freelist claims entering disputed pages are demoted |
| StorageReconciliation.CutTraversals | src/inspection/freelist.rs:749-807 | freelist traversals end before the first conflicting page |
| FileGeometry.MapNumberFixedPoint | src/inspection/roles.rs:105-137 | for every valid geometry a page's map is itself a map, and never the lock-byte page |
| FileGeometry.CoveredPages | src/inspection/roles.rs:111-127 | the pages that name a map as theirs are exactly the run between that map and the next group |
| PointerMap.InspectPage | src/inspection/pointer_map.rs:179-273 | one entry for each existing page of the map's group, in order, without the lock-byte page; each shows the file's bytes; a truncated map is never complete |
| PointerMap.InspectMaps | src/inspection/pointer_map.rs:139-177 | when complete, the entries of all maps visit every page that is neither map nor lock page exactly once, in ascending order, also around the displaced map |
| PointerMap.OrdinaryMeaning | src/inspection/pointer_map.rs:157-169 | membership in that list is exactly being a page from 2 on that is neither a map nor the lock page |
| PointerMap.OnePageOneEntry | src/inspection/pointer_map.rs:211-271 | no two entries of all maps speak about one page, complete or not |
| MapReconciliation.ValidateMaps | src/inspection/pointer_map.rs:285-347 | each entry gets its local verdict: kind, range, parent and largest root, in that order; a stop keeps the verdicts given so far, also within a map |
| MapReconciliation.ReconcileEntry | src/inspection/pointer_map.rs:380-474 | one entry: refuted exactly when a credible claim says otherwise, or nothing confirms it although it needs a forward link and all were looked at; exactly the credible claims on a refuted entry's page fall |
| MapReconciliation.ReconcileEntries | src/inspection/pointer_map.rs:349-378 | every entry is judged by the claims as they were before the map: a dispute about one page never changes the verdict on another; a stop keeps the verdicts given so far |
| MapReconciliation.ReconcileMaps | src/inspection/pointer_map.rs:349-378 | all maps together: each entry judged by the original claims, exactly the credible claims on refuted pages withdrawn, and at the end every entry agrees with the claims that are left; a stop keeps what was done |
| MapReconciliation.RefutedAlone | src/inspection/pointer_map.rs:349-378 | an entry's page is disputed only if that very entry is refuted |
| MapReconciliation.JudgedAgree | src/inspection/pointer_map.rs:349-378 | judging by the original claims leaves every entry in agreement with the remaining ones: a validated entry is contradicted by no credible claim and, unless it speaks of a root, confirmed by a validated one |
| MapReconciliation.OtherPages | src/inspection/pointer_map.rs:380-474 | what the claims say about one page is the same before and after disputes about other pages |
| MapReconciliation.DemotedEdges | src/inspection/pointer_map.rs:380-474 | the edges left by pointer maps are edges that were there before |
| Roles.MergeIsLeast | src/inspection/roles.rs:207-221 | merging two roles gives the least role above both |
| Roles.MergeAllIsLeast | src/inspection/roles.rs:317-374 | the merged role of a page is below a bound exactly when every piece of evidence is |
| Roles.SameRolesSameMerge | src/inspection/roles.rs:317-374 | neither order nor repetition of evidence matters |
| Roles.ResolveRole | src/inspection/roles.rs:317-374 | the fold over claims gives the merged role, and Conflicting as soon as one claim is disputed |
| Roles.CountersGiveVerdict | src/inspection/roles.rs:528-560 | support counters that recount the evidence give the same roles as the evidence itself |
| Roles.AddRecounts | src/inspection/roles.rs:543-551 | adding a claim keeps the counters a recount |
| Roles.RemoveRecounts | src/inspection/roles.rs:553-559 | taking back credible evidence never runs a counter below zero and keeps the recount |
| RoleCollection.CollectRoles | src/inspection/roles.rs:262-315 | the evidence of a page is its own, then the claims that name it, then the map entries about it |
| RoleCollection.WatchClaims | src/inspection/roles.rs:650-690 | every claim with evidence is watched by the page it leads from, with the requirement of its kind |
| RoleCollection.WatchMaps | src/inspection/roles.rs:680-717 | map entries are watched by their parent page and the claims stay watched |
| RoleCollection.IndexSlots | src/inspection/roles.rs:622-649 | each claim's slot is found by its name and the counters recount each page |
| RolePropagation.Dependencies.Propagate | src/inspection/roles.rs:722-781 | terminates although a page may stop being Conflicting; the counters stay a recount throughout; a run that reports success has settled every source but at most one, whose dependency list could not be read, and the result is closed if and only if the evidence on that source happens to be met, so always when no latch is raised; a closed start is left alone |
| RolePropagation.SkippedSourceStaysOpen | src/inspection/roles.rs:746-751 | the run that reports success over an unread list: the only source is skipped and evidence that its role does not accept still counts |
| RolePropagation.Dependencies.Process | src/inspection/roles.rs:740-781 | one queued page: all its evidence is settled, or its list was refused and a latch is raised; either nothing changes or the number of credible claims falls |
| RolePropagation.Dependencies.Withdraw | src/inspection/roles.rs:784-817 | a revocation updates evidence, claim and counters together and queues the page when its role changed |
| RolePropagation.RevokeCounts | src/inspection/roles.rs:722-781 | each revocation lowers the number of credible claims by exactly one |
| RolePropagation.RevokeCounted | src/inspection/roles.rs:553-559 | a revocation keeps all counters a recount |
| RoleReconciliation.Reconcile | src/inspection/roles.rs:223-252 | at success roles are what their evidence amounts to, every claim that authorizes a link leads from a page whose role fits and to a page not in dispute, the relationships are exactly the earlier ones whose claims stand, every traversal is cut at its first disputed page, and a forest stays a forest; no refused read slips through, since success on a file with pages means that no latch is raised |
| RoleReconciliation.SourcesFit | src/inspection/roles.rs:577-781 | closure of the worklist means that the source of every validated claim has the role the claim needs |
| RoleReconciliation.ContainClaims | src/inspection/roles.rs:465-512 | validated claims on conflicting pages fall, and no others; a page record that cannot be read spares its claim, which in a pass that completes can only be the last one, and then a latch is raised |
| RoleReconciliation.SparedStaysDisputed | src/inspection/roles.rs:499-507 | the spared claim: a pass that completes and leaves a validated claim on a conflicting page |
| RoleReconciliation.MarkReconciled | src/inspection/roles.rs:239-252 | the closing pass completes over a file with pages only when no latch is raised |
| RoleReconciliation.KeptHaveClaims | src/inspection/roles.rs:819-843 | with unique names a relationship that is kept has its own claim still validated |
| RoleReconciliation.BackingMeaning | src/inspection/roles.rs:834-843 | exactly the relationships with a validated claim are kept, in order |
| RoleReconciliation.CutTraversal | src/inspection/roles.rs:846-902 | a traversal keeps the part before its first disputed page, a root whose own evidence agrees excepted; an overflow chain whose first claim fell keeps nothing |
| Store.StoreContext.Reserve | src/inspection/storage.rs:250-261 | the shared byte counter is the sum over all collections; a reservation is granted exactly when it leaves the counter within half of the cache budget, and a refusal changes nothing |
| Store.StoreContext.Release | src/inspection/storage.rs:263-269 | giving bytes back keeps the counter the sum and never runs below zero |
| Store.StoreContext.RecordError | src/inspection/storage.rs:236-242 | the failure latch keeps the worse of two failures |
| Store.StoreContext.ClearBudgetStop | src/inspection/storage.rs:244-248 | only a budget failure is cleared |
| PageStore.PageCache.Insert | src/inspection/storage.rs:85-105 | the cache stays within its limit, pages given up were all used before every page that stays, and nothing is given up without need |
| PageStore.PageCache.Get | src/inspection/storage.rs:72-77 | a hit makes the page the most recently used and changes nothing else |
| PageStore.PageCache.MakeRoom | src/inspection/storage.rs:91-101 | evicting the oldest ends with enough room |
| PageStore.PageInventory.Push | src/inspection/storage.rs:440-471 | the inventory behaves as a sequence: a page is appended, or a failed write leaves it as it was |
| PageStore.PageInventory.Get | src/inspection/storage.rs:406-430 | a read returns the page pushed at that place, or its published replacement, whether it comes from memory, cache or disk |
| SpillingSequence.Sequence.Push | src/inspection/index.rs:186-193 | over cache, disk and nested segments the sequence grows by the record, or stays as it is when the store fails; other collections are untouched |
| SpillingSequence.Sequence.Get | src/inspection/index.rs:302-343 | a position yields the record that a plain sequence holds there |
| SpillingSequence.Sequence.Edit | src/inspection/index.rs:345-370 | an edit replaces one record or leaves the old one |
| SpillingSequence.Sequence.Append | src/inspection/index.rs:134-139 | appending moves all records of the other sequence to the end of this one |
| SpillingSequence.Retain | src/inspection/index.rs:141-156 | the rebuilt sequence holds the accepted records of what was read, in order, and the old one's bytes are given back |
| SpillingSequence.Drop | src/inspection/index.rs:387-391 | dropping a sequence gives back exactly what it and its segments held |
| SpillingSequence.StoreAt | src/inspection/index.rs:168-241 | a store at any position, through any depth of segments, is an update or an append of the plain sequence; a failed one changes nothing at all |
| SpillingSequence.StoreLocal | src/inspection/index.rs:195-241 | the cache takes the record exactly while it has room and the record is not already on disk, otherwise the disk does; a record is never in both |
| SpillingSequence.ReadAt | src/inspection/index.rs:302-343 | reads agree with the plain sequence, and answer nothing only past the end or when the store failed |
| SpillingSequence.Frame | src/inspection/index.rs:93-120 | work on other collections of the same store leaves a sequence as it is |
| SharedStore.SequenceStep | src/inspection/index.rs:168-241 | over any number of sequences and indexes in one store, work on one sequence changes the meaning of that one only |
| SharedStore.MapStep | src/inspection/index_map.rs:191-256 | the same for work on one index |
| SharedStore.AppendStep | src/inspection/index.rs:134-139 | moving one sequence behind another changes the meaning of these two only |
| SharedStore.Workspace.PerformAll | src/inspection/index.rs:93-391 | any program of operations on any number of sequences and indexes that share one store, with collections created and moved on the way, does what it does to plain sequences and maps; each operation takes effect as a whole or not at all, and all do while the store works |
| SpillingSequence.SplitSegments | src/inspection/index.rs:134-139 | segments concatenate |
| SpillingSequence.ChargeDiffers | src/inspection/index.rs:195-241 | a change at one position changes the charge by that position only |
| KeyCodec.DecodeEncode | src/inspection/index_map.rs:11-63 | keys decode to the number encoded |
| KeyCodec.EncodeOrder | src/inspection/index_map.rs:11-63 | the byte order of encoded keys is the numeric order |
| KeyCodec.PairOrder | src/inspection/index_map.rs:51-63 | pairs sort by their first number, then by the second, and decode to themselves |
| SpillingMap.IndexMap.Insert | src/inspection/index_map.rs:191-199 | over cache and disk the index becomes the plain map with the new entry and returns what was there; a failure changes nothing |
| SpillingMap.IndexMap.Put | src/inspection/index_map.rs:201-229 | the same for storing, which may move an entry between cache and disk |
| SpillingMap.IndexMap.Get | src/inspection/index_map.rs:139-167 | a lookup agrees with the plain map |
| SpillingMap.IndexMap.Remove | src/inspection/index_map.rs:231-256 | removal agrees with the plain map, or nothing changes |
| SpillingMap.IndexMap.NextKey | src/inspection/index_map.rs:275-312 | merging cache and disk yields the least key after the previous one |
| SpillingMap.KeysAfter | src/inspection/index_map.rs:275-312 | the cursor visits every later key once, in ascending order |
| PageIndex.LocalPosition | src/inspection/index/pages.rs:79-102 | the least of cache, source index and target index is the first touching position |
| PageIndex.PagePosition | src/inspection/index/pages.rs:55-77 | through all segments, the first position at or after `start` that touches the page |
| PageIndex.PageCount | src/inspection/index/pages.rs:29-52 | the number of touching records, none counted twice although source and target are counted apart |
| PageIndex.PagePositions | src/inspection/index/pages.rs:6-27 | the slice of the ordered list of touching positions |
| PageIndex.FoundIsNext | src/inspection/index/pages.rs:6-27 | the position found extends the list of touching positions by exactly one |
| PageIndex.TouchingAll | src/inspection/index/pages.rs:105-108 | the list misses no touching position |
| PageIndex.TouchingAscends | src/inspection/index/pages.rs:6-27 | the list is strictly ascending |
| Windows.CollectionQuery | src/inspection/session/collections.rs:92-171 | errors exactly for a bad limit, changed inputs, an unknown revision or page; otherwise a window from `offset` that holds at least one record if there is one and respects the first-record and window budgets |
| Windows.EveryRecordOnce | src/inspection/session/collections.rs:92-171 | following `next_offset` from 0, with any limits, shows every record once and in order |
| Windows.TakeAll | src/inspection/session/collections.rs:128-159 | records are taken in order while they fit; the first may be larger than a window |
| Windows.EstimatedSize | src/inspection/index.rs:272-300 | the reservation is that of the record at the position, by where it is kept |
| TraversalFrames.DecodeOfFrame | src/inspection/index/traversals.rs:6-47 | a framed traversal decodes to itself |
| TraversalFrames.DecodedIsFrame | src/inspection/index/traversals.rs:22-47 | whatever decodes is a frame: header text, pages and nothing else |
| TraversalFrames.Encode | src/inspection/index/traversals.rs:6-16 | the bytes written are the frame, and only a header of four gigabytes has none |
| TraversalFrames.ReadBlob | src/inspection/index/traversals.rs:88-136 | for any stored bytes, the window is that slice of what full decoding gives, and refused exactly when decoding fails or the header exceeds 65536 bytes |
| TraversalFrames.TraversalWindow | src/inspection/index/traversals.rs:50-86 | through cache, disk and segments, a window of the prefix stored at that position; a failure is latched |
| SessionProtocol.JobsOfARun | src/inspection/session/deep.rs:273-508 | over every interleaving: revisions are exactly 1 to k, a completed job made the revision after its target and shares it with no other, a job whose cancel was accepted has not completed, retained and pending jobs stay within their limits |
| SessionProtocol.CancelledNeverCompletes | src/inspection/session/deep.rs:121-134 | a job cancelled while pending never completes at any later point |
| SessionProtocol.RunLater | src/inspection/session/deep.rs:472-508 | from any point of a run to any later one, earlier revisions, targets and finished jobs do not change |
| SessionProtocol.RunInv | src/inspection/session.rs:472-525 | the session invariant holds at every point of every run |
| SessionProtocol.PublishedOnce | src/inspection/session.rs:472-525 | revision 1 is published at most once, and revisions exist exactly then |
| SessionProtocol.StoppedStaysUnpublished | src/inspection/session.rs:1254-1292 | a stop taken while a verification is active leads to no published revision, and a session never returns to Scanning |
| SessionProtocol.StopDuringCheck | src/inspection/session.rs:1254-1292 | a stop that arrives while a publisher or a query verifies the inputs is held as unverified, and nothing is published from then on |
| SessionProtocol.RunTallied | src/inspection/session.rs:750-771 | the count of active verifications is at every point the number of publishers and queries that are verifying |
| SessionProtocol.BeginQueryKeeps | src/inspection/session.rs:750-771 | a query that starts a verification keeps the invariant |
| SessionProtocol.NextKeeps | src/inspection/session.rs:773-880 | every locked section keeps the invariant and takes nothing back |
| SessionProtocol.DecideKeeps | src/inspection/session.rs:838-853 | at most one finisher can carry a stop to publication |
| SessionProtocol.PublishKeeps | src/inspection/session.rs:472-525 | publishing starts the revisions at 1 and happens only while nothing is published |
| SessionProtocol.StopKeeps | src/inspection/session.rs:1254-1292 | a stop is unverified, pending or published now, and each case keeps the invariant |
| SessionProtocol.AdmitKeeps | src/inspection/session/deep.rs:273-353 | admission keeps retained and running jobs within their limits |
| SessionProtocol.CommitKeeps | src/inspection/session/deep.rs:472-508 | a commit extends the revisions by exactly the next number, or only ends its job |
| SessionData.InspectionSession.Validate | src/inspection/session.rs:450-460 | a difference in the inputs invalidates for good |
| SessionData.InspectionSession.Stop | src/inspection/session.rs:1254-1292 | the locked section is the protocol step; the caller publishes only when nothing runs |
| SessionData.InspectionSession.Decide | src/inspection/session.rs:838-853 | the locked section is the protocol step |
| SessionData.InspectionSession.Publish | src/inspection/session.rs:472-525 | the locked section is the protocol step, so all runs that contain it keep the invariant |
| SessionData.InspectionSession.CancelDeep | src/inspection/session/deep.rs:121-126 | only a pending job takes a cancel |
| SessionData.InspectionSession.AdmitDeep | src/inspection/session/deep.rs:273-353 | counting retained and active jobs under the lock decides exactly as the protocol step |
| SessionData.InspectionSession.CommitDeep | src/inspection/session/deep.rs:472-508 | a job completes if and only if the session is valid, its target is the published revision, no cancel was accepted and the numbers have not run out |
| Schema.IndexTrees | src/inspection/schema.rs:215-283 | with a working store the members are exactly the pages that tree traversals hold below their roots over retained links, a root is marked partial exactly when one of its walks is, and child targets are exactly the claimed ones; failed reads and writes end the loops silently, which only a later read can tell |
| Schema.ExactIsConnected | src/inspection/schema.rs:215-283 | every member of an exact index is a B-tree page reached from its root through retained links |
| Schema.HasSchemaTree | src/inspection/schema.rs:316-323 | the guard on root 1 is a read, so an index built on a failed store is never used |
| Schema.IndexTraversal | src/inspection/schema.rs:248-277 | links are checked again, so a prefix edge that role reconciliation dropped ends the tree; what is added is exactly the joined part of the prefix |
| Schema.Attribute | src/inspection/schema.rs:507-586 | an object takes a root only of its own kind that is nobody's child and whose tree is known, exactly then when nothing interferes; its pages are accepted in ascending order up to a stop, and an entry can be lost only for the last one |
| Schema.ReconcileAttribution | src/inspection/schema.rs:406-468 | a root claimed twice is given to none; after a stop or an exhausted budget the two indexes agree; a store that fails otherwise can lose one entry, and they agree if and only if it did not; uninterrupted, every object is placed as it should be |
| Schema.LostDisagrees | src/inspection/schema.rs:569-575 | an object kept with an accepted page whose entry was not written makes the indexes differ |
| Schema.LostEntry | src/inspection/schema.rs:569-575 | the input: one table, one page, entry lost, and the two indexes contradict each other |
| Schema.PagesHaveOneObject | src/inspection/schema.rs:406-468 | no page is attributed to two objects, and attributed pages are reachable B-tree pages |
| Schema.AttributeSchema | src/inspection/schema.rs:297-404 | the whole phase over any retained graph and any store failure: the index is exact whenever it is used, a page has one object and is reached from its root, the indexes agree unless a store beyond its budget lost an entry; uninterrupted, availability is decided by the tree of page 1 and every object is placed |
| Schema.SeparateIsPublished | src/inspection/schema.rs:406-468 | objects with different unclaimed roots never share a page, however attribution ended |
| Schema.SoundAgrees | src/inspection/schema.rs:107-124 | a page that lists an object is listed for it, and conversely unless the entry of the last accepted page was lost |
| Schema.OneRoot | src/inspection/schema.rs:215-283 | in a forest a page lies below one root only |
| Schema.NextMember | src/inspection/schema.rs:181-186 | members come in ascending page order |
| Schema.CountRoots | src/inspection/schema.rs:412-430 | how often each root is claimed, unless a counter could not be read or written |
| SchemaQueries.PageSchema | src/inspection/session/schema.rs:9-83 | an answered window shows the declarations of a page in order, with their total and the next offset; entries beyond an accepted boundary are passed over |
| SchemaQueries.SchemaPages | src/inspection/session/schema.rs:106-175 | an answered window shows the pages of a declaration in order |
| SchemaQueries.ListsAgree | src/inspection/session/schema.rs:9-175 | a page is read for a declaration exactly when the declaration is read for the page |
| SchemaQueries.AllRead | src/inspection/session/schema.rs:75-82 | following the next offsets from 0 reads the whole list once and in order |
| SchemaPayload.FindChain | src/inspection/schema.rs:761-771 | the first overflow traversal of the cell, if it was followed to its end |
| SchemaPayload.PayloadReader.Read | src/inspection/schema.rs:712-825 | the payload is charged before it is read; what is returned is, byte for byte, the local part and the pages of the cell's chain; an unavailable chain was stopped, is not authorized step by step, or could not be looked up, so neither length check behind the chain can fail |
| SchemaPayload.NextPage | src/inspection/schema.rs:796-799 | no page of a complete chain is without payload bytes, so the zero-length check is dead |
| RevisionContents.InspectRevision | src/inspection/session.rs:773-880 | everything a scan puts into a revision: whatever interrupted it, and also when the spill budget failed in any phase, the published relationships form a forest, traversals stay within the ceiling, and the two schema indexes agree |
| RevisionContents.ContainStorageStop | src/inspection/session.rs:882-914 | a failed spill budget drops relationships, traversals and roles, keeps claims and map entries and is cleared; any other failure ends the session |
| RevisionContents.CompletedFeedsSchema | src/inspection/session.rs:819-828 | a completed inspection meets what attribution relies on: tree walks start on their roots, links have claims and one owner |
| Varints.RoundTrip | src/inspection/btree.rs:569-583 | decoding what SQLite encodes gives back every 64-bit number, whatever follows, and ends behind it |
| Varints.ReadVarint | src/inspection/btree.rs:569-583 | the byte loop reads one to nine bytes as the format defines |
| Varints.DecodeBounds | src/inspection/btree.rs:569-583 | a varint stays inside the buffer and fits 64 bits |
| PageLayout.SpillBounds | src/inspection/btree.rs:456-487 | local payload lies between minimum and maximum whenever it spills, and is the minimum or leaves full overflow pages |
| PageLayout.Sweep | src/inspection/btree.rs:527-554 | one sweep over sorted extents marks an extent if and only if some other extent overlaps it |
| PageLayout.SortKeeps | src/inspection/btree.rs:527 | sorting permutes the extents |
| PageLayout.ContainOverlaps | src/inspection/btree.rs:493-555 | exactly the cells and free blocks that overlap another allocation lose their byte ranges |
| PageLayout.LeftIsDisjoint | src/inspection/btree.rs:493-555 | afterwards no two attributed ranges share a byte |
| FreeSpace.Query | src/inspection/btree.rs:282-353 | the prefix-maximum query answers what a linear overlap scan would |
| FreeSpace.Maxima | src/inspection/btree.rs:284-301 | prefix maxima are attained upper bounds |
| FreeSpace.PartitionPoint | src/inspection/btree.rs:323-325 | halving finds how many extents start before a limit |
| FreeSpace.Freeblocks | src/inspection/btree.rs:282-353 | the chain is followed as linked, clear of other allocations, and each way it can end is told apart |
| FreeSpace.BlocksRise | src/inspection/btree.rs:282-353 | chain offsets strictly ascend and blocks share no byte |
| FreeSpace.Fragments | src/inspection/btree.rs:374-423 | allocations and gaps tile the content area; the verdict compares gaps with the header's count and size limit |
| FreeSpace.TilesOnce | src/inspection/btree.rs:374-423 | tiling pieces cover each byte of the area exactly once |
| FreeSpace.TilesLength | src/inspection/btree.rs:374-423 | the lengths of tiling pieces add up to the area |
| Reconstruction.Reader.ReadSegment | src/inspection/deep.rs:488-529 | the payload grows by exactly the file's bytes of the extent, with evidence in chunks |
| Reconstruction.Reader.ReadOverflow | src/inspection/deep.rs:531-633 | over a chain that fits the payload neither length mismatch can occur; the bytes are those of the chain's pages in order, and every other outcome names its true cause |
| Reconstruction.Reader.ReadPayload | src/inspection/deep.rs:184-283 | what is returned is byte for byte the local part followed by the pages of the chain, exactly `payload_size` of them |
| SelectedCell.ReadCell | src/inspection/deep.rs:184-283 | over a completed inspection: no length mismatch can occur for any cell, and a returned payload is its local part and exactly as many overflow pages as section 1.7 of the file format demands |
| SelectedCell.ResultLeavesChain | src/inspection/roles.rs:846-902 | overflow reconciliation, freelist reconciliation and role cuts all leave a chain that fits its cell |
| SelectedCell.CompleteChainLength | src/inspection/deep.rs:531-633 | a complete chain has the spilled bytes divided by usable size less four, rounded up, pages |
| Reconstruction.ProvenanceIsFaithful | src/inspection/deep.rs:460-486 | the file's bytes at a field's sources, joined in order, are the payload bytes of the field |
| Reconstruction.FindSource | src/inspection/deep.rs:460-486 | the single pass over the evidence computes those sources |
| Reconstruction.DecodeRecord | src/inspection/deep.rs:296-402 | the fields of an accepted record tile its body and each field's sources hold exactly its bytes |
| Reconstruction.ReadFields | src/inspection/deep.rs:335-401 | fields are laid out one after the other by their serial types |
| Reconstruction.JoinedLength | src/inspection/deep.rs:460-486 | joined segments are as long as the segments together |
| Wal.Inspect | src/inspection/sidecar/wal.rs:150-225 | validated frames are a prefix of the log, within the frame limit; it ends only at the end of the file, a frame that does not validate, a limit or a stop; the last commit frame is the last validated one with a nonzero size |
| Wal.MaximalPrefix | src/inspection/sidecar/wal.rs:150-225 | unless a limit or stop cut it short, no longer prefix is valid |
| Wal.ReadFrame | src/inspection/sidecar/wal.rs:102-148 | a frame is accepted exactly when its salts, page numbers and checksum from scratch are right |
| Wal.StreamContinues | src/inspection/sidecar/wal.rs:117-140 | the rolling checksum equals the checksum of header and all earlier frames from scratch |
| Wal.ChecksumContinues | src/inspection/sidecar.rs:157-163 | a checksum continued is the checksum of everything |
| Wal.ComputeChecksum | src/inspection/sidecar.rs:157-163 | the loop computes the checksum of whole eight-byte groups |
| Wal.GoodHeader | src/inspection/sidecar/wal.rs:38-100 | a header is accepted only with a valid page size and its own checksum |

## Left out

- `Inspection.InspectFile`: the page evidence of local decoding (kinds, cells, reserved flags, role evidence of headers) is an input; the scanner that fills the inventory page by page is not part of this model.
- `Topology.Inspect`: an operator stop and a cancel are both shown as a raised stop latch, so which of the two words a stopped traversal carries is not modelled; 64-bit saturation of counters is modelled as unbounded addition.
- `RoleReconciliation.Reconcile`: takes the claims' names as unique, which `Topology.Inspect` proves of the claims it hands over.
- `OverflowOwners.DemoteOwners`: takes the keys of the incoming index in any order, where the program takes them in ascending order; the result does not depend on it.
- `SpillingSequence.Sequence.Push`: records that cannot be encoded (serialization errors) are not modelled; disk answers are nondeterministic.
- `TraversalFrames.Encode`: the text form of headers is any codec that gives back what it was given.
- `Windows.CollectionQuery`: whether memory is available is a nondeterministic answer; rescanning the inputs before a query is the parameter `intact`.
- `Wal.Inspect`: file reads return the bytes of the file; an I/O error in the middle of the log is not modelled. The comparison of the log's page size with the main file's is left out.
- `Reconstruction.DecodeRecord`: values are kept as byte ranges; text encodings, real numbers and display forms are left out.
- `PageStore.PageCache.Get`: the use clock does not wrap around at 64 bits.
- `Schema.AttributeSchema`: takes the declarations as decoded, so kinds, root numbers and virtual tables are inputs; text decoding and the header state with its diagnostics are left out.
- `SchemaPayload.PayloadReader.Read`: assumes the inspection completed; over a contained revision there are no traversals, and the search for a chain then finds none.
- `RevisionContents.InspectRevision`: sidecars and semantic metadata, which run between attribution and publication, are left out; the decoded declarations are an input.
- `FreeSpace.Fragments`: works on allocations that containment left disjoint; coverage reports of the page decoder are left out.
- Evidence ranges, validation-rule names, diagnostics texts and coverage counters are dropped, except where reconstruction's provenance is about them.
- Work-unit counts, progress observers and per-phase limits of work control: only whether and when a stop is seen.
- Opening files, metadata stamps, digests and re-verification: the protocol takes "changed" and the result of a check as inputs.
- Worker panics, thread joins and condition variables: locked sections are atomic steps.
- Rollback journal and shared-memory sidecars, semantic metadata, export batches and the web and terminal adapters.
- Memory ceilings of deep jobs (`reserve_deep_payload`): an input of admission, as are scope and cell checks.
