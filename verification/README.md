# squiddb: a verified model

This project models the core of squiddb, an embedded row store, in Dafny and proves what the code promises:

- **The indexable skip list** (`SkipLists`, `SkipListLevels`, `SkipListNodes`, `SkipListIterators`). Node objects with
  `next` and `width` arrays are relinked in place, level by level, from the ranks one descent accumulates. The list
  invariant `SkipListNodes.Chained` says that on every level each link and each width is the one the node heights
  determine (`Positions.Next`, `Positions.Width`). Widths have type `nat`, so every width subtraction in the model
  carries a proof that the unsigned subtraction of the source does not wrap. Node heights are arbitrary values in
  1..max. Every method proves its result against the sequence of stored entries, and `SkipListRuns` and
  `SkipListReplay` prove that whole runs refine a finite map, for any choice of heights.
- **The consistency check, `validate`** (`SkipListValidation`), proved sound and complete on lists with well-formed chains only, so
  it also covers states no operation produces.
- **Equal keys** (`SkipListDuplicates`): when removal and seek still work on a non-primary index.
- **Transactions** (`TransactionIds`, `ThreadContexts`, `Viewpoints`, `Tables`). `Viewpoints` is a transition system
  in which any number of threads interleave the two locked steps of beginning and the two of ending; `Tables` is what
  one thread sees, with row operations that open and commit a transaction of their own.
- **The file ring** (`FileManagers`): file names, 8-bit wrapping sequence numbers, and recovering the order on restart.
- **The schema file** (`Columns`, `Schemas`, `StringUtils`): printer, parser, and the row layout the columns give.

`Wrappers`, `Positions` and `SortedKeys` hold result types, position arithmetic and facts about ordered keys.

Exceptions of the source are `Err` results. Source assertions are proof obligations: each one that a modelled
operation reaches is an `assert` (or a bound that Dafny checks) in the method that models it. Where the source would
read through a null pointer or past the end of a string, the model has a precondition or an error result that
describes exactly those inputs, and a lemma or `ensures` states when it happens.

Long source functions are split into several methods here so that each proof stays small: `insert` is
`SkipList.Insert`, `StoreRow`, `InsertNew`, `NewNode`, `AddNode`, and `SkipListLevels.LinkNode` with its two loop bodies;
`remove` is `SkipList.Remove`, `TakeNode`, and `SkipListLevels.UnlinkNode` with its two loop bodies.

## What the proofs found

- Removing a key of a non-primary index meets one and the same node on every level exactly when the first node with
  that key is at least as tall as the others (`SkipListDuplicates.RemovalMeetsOneNode`); two equal keys, the second
  taller, break the assertion of the source (`RemovalSplitsDuplicates`). Seek has the same condition (`SeekLandsFirst`).
- A bounded scan ends without reading a null node exactly when some stored key is at or past the start and past the
  end of the range (`SkipListIterators.RangeScanVisits`).
- Restart recovers the creation order of a contiguous run of at most 256 files exactly when fewer than 256 are present
  or the first is number 0 (`FileManagers.RestartRecovers`); a full ring can be arranged contiguously from any of its
  files (`FullRingAmbiguous`).
- A schema survives writing and reading exactly when no column name holds a colon or newline or starts with `#` or
  whitespace (`Schemas.WriteThenRead`). The comment in the source asks for more checking there but names no condition.
- `trim` reads past the end of exactly the strings whose only non-whitespace character is the first one
  (`StringUtils.Trim`). In a schema file that includes a line that is a lone `#`, which is therefore the one comment
  that is not passed over (`Schemas.SkippedIffIgnorable`).
- Beginning a transaction while one is open throws only after a new id has become active, and nothing releases that
  id (`Tables.Table.BeginTransaction`); the transition system therefore lets a thread begin only when it has none open.

## Model

| member | source | states |
|---|---|---|
| Positions.InsertNext | src/core/SkipList.cxx:114-142 | after one node joins, every link of every level goes where it went, to the new node, or one position further, by a case split on rank and height |
| Positions.InsertWidth | src/core/SkipList.cxx:114-142 | the width of the link split by a new node is the distance plus one, the widths above it grow by one, the rest stay; the distance never exceeds the old width |
| Positions.NextOfPrev | src/core/SkipList.cxx:527-540 | a level's last node up to a rank links past that rank, and is wider than the rank's own link by their distance |
| Positions.OnePrev | src/core/SkipList.cxx:527-540 | on each level exactly one link passes a given rank |
| Positions.WidthsSum | src/core/SkipList.cxx:560-595 | the widths followed along any level from any node add up to the number of stored nodes after it |
| SortedKeys.LowerBoundCounts | src/core/SkipList.cxx:521-545 | in an ordered sequence the rank of a key is the number of smaller keys |
| SortedKeys.CountSplits | src/core/SkipList.cxx:381-405 | range counts add up over adjacent ranges |
| SortedKeys.RankDifference | src/core/SkipList.cxx:397-404 | ranks are monotone and their difference is the number of keys in the half-open range |
| SortedKeys.StrictlyOrderedUnique | src/core/SkipListIterator.cxx:32-43 | a strictly increasing visit of a key set is unique |
| SkipListNodes.RowInfo.SetData | src/core/RowInfo.cxx:38-41 | data and size change, the status does not |
| SkipListNodes.RowInfo.SetStatus | src/core/RowInfo.cxx:22-24 | the status changes, data and size do not |
| SkipListNodes.Transaction.AddAffectedRow | src/core/Transaction.cxx:39-42 | the affected-row list grows by one at its end |
| SkipListNodes.SkipListNode.constructor | src/core/SkipListNode.cxx:11-27 | a new node owns two fresh arrays of its height, all links null and all widths zero |
| SkipListNodes.TraverseContext.constructor | src/core/TraverseContext.cxx:11-24 | two fresh, distinct arrays of the given size, every node null and every rank zero |
| SkipListNodes.TraverseContext.SetPrevNode | src/core/TraverseContext.cxx:46-50 | one slot of the node record is overwritten, no other |
| SkipListNodes.TraverseContext.SetPrevRank | src/core/TraverseContext.cxx:58-62 | one slot of the rank record is overwritten, no other |
| SkipListNodes.FollowLink | src/core/SkipListNode.cxx:58-74 | in a well-formed list a link leads to the next taller position or null, both arrays have the level, and the width is the distance |
| SkipListNodes.RankSplits | src/core/SkipList.cxx:521-545 | the rank of a key separates the smaller stored keys from the others |
| SkipListNodes.MeetsKey | src/core/SkipList.cxx:527-543 | where a level's walk stops it is the last node up to the key's rank, and an equal key met on any level is stored right after that rank |
| SkipListNodes.MeetsOrDescends | src/core/SkipList.cxx:490-505 | where a search stops on a level it has found the tallest equal node, or no equal node is above the level |
| SkipListLevels.LevelLinked | src/core/SkipList.cxx:130-141 | splitting one link around a new node turns a level that was exact for the old sequence into one exact for the new |
| SkipListLevels.LevelWidened | src/core/SkipList.cxx:114-120 | one width raised by one makes a level the node does not join exact for the new sequence |
| SkipListLevels.LevelUnlinked | src/core/SkipList.cxx:189-195 | merging the two links around a node makes the level exact for the sequence without it |
| SkipListLevels.LevelNarrowed | src/core/SkipList.cxx:196-199 | one width lowered by one makes a level above the removed node exact for the sequence without it |
| SkipListLevels.WidenLink | src/core/SkipList.cxx:115-120 | one step of the widening loop, all other levels untouched |
| SkipListLevels.SplitLink | src/core/SkipList.cxx:123-142 | one step of the linking loop: no subtraction wraps and the level becomes exact, all others untouched |
| SkipListLevels.ReachesPast | src/core/SkipList.cxx:132-135 | the link to be split is at least as wide as the distance subtracted from it |
| SkipListLevels.MergeLink | src/core/SkipList.cxx:186-195 | one step of the removal loop on a level of the removed node |
| SkipListLevels.NarrowLink | src/core/SkipList.cxx:196-199 | one step of the removal loop above the removed node; the width subtracted from is at least one |
| SkipListLevels.LinkAround | src/core/SkipList.cxx:178-199 | seen from its predecessors, a node is next on exactly its own levels |
| SkipListLevels.OrderAsserts | src/core/SkipList.cxx:127-128 | the order assertions around a link that passes the key's rank hold |
| SkipListLevels.LinkNode | src/core/SkipList.cxx:114-142 | both loops of insertion leave every level exact for the sequence with the new node |
| SkipListLevels.MeetsFirstOnly | src/core/SkipList.cxx:186-189 | when the first equal node is a tallest one, a removal meets it on exactly the levels below its height and no other equal node on any level |
| SkipListLevels.UnlinkNode | src/core/SkipList.cxx:176-201 | the removal loop finds that node and leaves every level exact for the sequence without it |
| SkipLists.SkipList.constructor | src/core/SkipList.cxx:22-28 | a new index is uninitialized and valid |
| SkipLists.SkipList.Initialize | src/core/SkipList.cxx:63-80 | initializes once, with no entries; a second call and a maximum height of zero fail and change nothing |
| SkipLists.SkipList.GenerateNodeHeight | include/core/SkipList.h:67-79 | the height is in 1..max for every outcome of the generator |
| SkipLists.SkipList.AddNode | src/core/SkipList.cxx:110-151 | the new node stands right after its rank on every level it joins, order and exactness are kept, the size grows by one |
| SkipLists.SkipList.InsertNew | src/core/SkipList.cxx:110-142 | the entries gain the new row at the key's rank and nothing else changes |
| SkipLists.SkipList.StoreRow | src/core/SkipList.cxx:110-152 | the same, and the transaction's list gains the new row |
| SkipLists.SkipList.Insert | src/core/SkipList.cxx:82-153 | for any height and either kind of index: the error cases, false and no change for a duplicate key of a primary index, otherwise the entry inserted before all equal keys with every link and width exact |
| SkipLists.SkipList.TakeNode | src/core/SkipList.cxx:176-204 | the node of the key leaves the sequence and every level stays exact |
| SkipLists.SkipList.Remove | src/core/SkipList.cxx:155-224 | the error case, false and no change for an absent key, otherwise the first entry of the key removed with every link and width exact and its row cut loose |
| SkipLists.SkipList.TraversePrevNodes | src/core/SkipList.cxx:510-547 | on every level the last node with a smaller key and its exact position; the final rank counts the smaller keys; the flag is raised exactly when the key is stored |
| SkipLists.SkipList.FindNode | src/core/SkipList.cxx:480-508 | null exactly when the key is absent, else the first among the tallest nodes of the key, although upper levels stop early |
| SkipLists.SkipList.Update | src/core/SkipList.cxx:226-260 | true exactly when the key is stored; that row's data and size change, status, order, links and all other rows do not |
| SkipLists.SkipList.Find | src/core/SkipList.cxx:262-280 | the row data of a stored key, null for an absent one |
| SkipLists.SkipList.Contains | src/core/SkipList.cxx:282-294 | true exactly when the key is stored |
| SkipLists.SkipList.Empty | src/core/SkipList.cxx:351-358 | true exactly when no key is stored |
| SkipLists.SkipList.Size | src/core/SkipList.cxx:360-379 | the counter and the counted bottom level both equal the number of stored keys |
| SkipLists.SkipList.EstimateRangeCardinality | src/core/SkipList.cxx:381-405 | exactly the number of stored keys in the half-open range, and the rank assertion holds |
| SkipLists.SkipList.Begin | src/core/SkipList.cxx:296-303 | an unbounded iterator on the first stored node |
| SkipLists.SkipList.Seek | src/core/SkipList.cxx:305-340 | the iterator stands on the least stored key at or past the argument, already cut at the end key |
| SkipLists.SkipList.SeekNode | src/core/SkipList.cxx:311-337 | the descent of seek ends on that node, or on null when every stored key is smaller |
| SkipListIterators.SkipListIterator.constructor | src/core/SkipListIterator.cxx:17-25 | a start past the end key makes the iterator invalid at once |
| SkipListIterators.SkipListIterator.Next | src/core/SkipListIterator.cxx:67-74 | moves along the bottom level and becomes invalid past the end key |
| SkipListIterators.SkipListIterator.Increment | src/core/SkipListIterator.cxx:32-43 | the same, and nothing on an invalid iterator |
| SkipListIterators.RangeScanVisits | src/core/SkipList.cxx:471-478 | a bounded scan visits exactly the stored keys of the closed range in order, and ends safely exactly when some stored key is past both bounds |
| SkipListIterators.WithinCount | src/core/SkipList.cxx:381-405 | with unique keys a range scan is as long as the range count plus one exactly when the end key is stored |
| SkipListIterators.WithinIsStrict | src/core/SkipListIterator.cxx:32-43 | the keys visited are strictly increasing and are exactly the stored keys of the closed range |
| SkipListValidation.ValidateLevel | src/core/SkipList.cxx:555-580 | the walk of an upper level against the bottom level terminates and accepts exactly exact widths |
| SkipListValidation.ValidateBottom | src/core/SkipList.cxx:581-595 | the bottom level is accepted exactly when each link has width one and the last node width zero |
| SkipListValidation.ValidateWidths | src/core/SkipList.cxx:551-596 | the walk over all levels accepts exactly the lists on which every width is the distance its link covers |
| SkipListValidation.ValidateKeys | src/core/SkipList.cxx:598-613 | accepted exactly when every link of every stored node leads to a key that is not smaller |
| SkipListValidation.OrderedLinksIffKeys | src/core/SkipList.cxx:598-613 | on well-formed chains that is the same as non-decreasing keys |
| SkipListValidation.Validate | src/core/SkipList.cxx:549-616 | on any well-formed chains the check terminates and is true exactly when all widths are exact and the keys are ordered |
| SkipListValidation.ExactIffChained | src/core/SkipList.cxx:549-616 | with the links of the heights, exact widths are the list invariant |
| SkipListValidation.ChainedIsExact | src/core/SkipList.cxx:549-616 | every list that satisfies the invariant passes the width check |
| SkipListRuns.ModelInserted | src/core/SkipList.cxx:82-153 | inserting an entry with an absent key extends the map by that key alone |
| SkipListRuns.ModelRemoved | src/core/SkipList.cxx:155-224 | removing an entry removes its key from the map and no other |
| SkipListRuns.ModelUpdated | src/core/SkipList.cxx:226-260 | setting a row's data changes the map at its key and nowhere else |
| SkipListRuns.ModelSize | src/core/SkipList.cxx:360-379 | the map has as many keys as there are entries |
| SkipListRuns.CountInSet | src/core/SkipList.cxx:381-405 | the range count of the sequence is the size of the key set cut to the range |
| SkipListRuns.AnswerUnique | src/core/SkipList.cxx:83-478 | the map determines the answer of every operation |
| SkipListRuns.UnboundedIsLegal | src/core/SkipList.cxx:88-90 | every run without bounded scans whose heights are in range is one the run theorems speak of |
| SkipListRuns.PastIsLegal | src/core/SkipListIterator.cxx:22 | so is a run that starts with a bounded scan while some key is past both its ends |
| SkipListRuns.AnyHeights | src/core/SkipList.cxx:95-97 | any heights may be put in place of those of a run |
| SkipListRuns.HeightsUnobservable | src/core/SkipList.cxx:95-97 | two runs that differ in node heights alone give the same answers |
| SkipListRuns.SameSteps | src/core/SkipList.cxx:95-97 | and leave the same map |
| SkipListReplay.DoInsert | src/core/SkipList.cxx:82-153 | on a unique-key index insertion answers and acts as on the map |
| SkipListReplay.DoRemove | src/core/SkipList.cxx:155-224 | removal answers and acts as on the map |
| SkipListReplay.DoUpdate | src/core/SkipList.cxx:226-260 | update answers and acts as on the map |
| SkipListReplay.DoFind | src/core/SkipList.cxx:262-280 | find answers as the map |
| SkipListReplay.DoCount | src/core/SkipList.cxx:381-405 | the range count is the size of the map's key set cut to the range |
| SkipListReplay.CollectScan | src/core/SkipList.cxx:465-469 | a full scan visits every stored key in order |
| SkipListReplay.CollectRange | src/core/SkipList.cxx:471-478 | the iterator that seek returns, driven to its end, visits exactly the stored keys of the closed range |
| SkipListReplay.Replay | src/core/SkipList.cxx:82-478 | over any run each answer is the map's, and the index stands for the map after the run |
| SkipListReplay.ReplayBoth | include/core/SkipList.h:67-79 | two indexes for the same map, with any heights and maximum heights, answer a run alike |
| SkipListReplay.RunFromEmpty | src/core/SkipList.cxx:63-478 | two newly initialized indexes with any maximum heights, run through the same operations with any node heights, both give the answers of a map that starts empty |
| SkipListReplay.ReplayThenValidate | src/core/SkipList.cxx:549-616 | the check accepts the index after any run |
| SkipListReplay.InsertThenRemove | src/core/SkipList.cxx:110-201 | inserting an absent key at any height and removing it restores every link, every width and every row |
| SkipListDuplicates.RemovalMeetsOneNode | src/core/SkipList.cxx:186-189 | removal meets one node on all levels if and only if the first equal node is a tallest one |
| SkipListDuplicates.TallerIsMet | src/core/SkipList.cxx:186-189 | a taller duplicate is what the level of the first node's height shows |
| SkipListDuplicates.RemovalSplitsDuplicates | src/core/SkipList.cxx:187 | two equal keys on which the assertion of removal fails |
| SkipListDuplicates.UniqueIsFirst | src/core/SkipList.cxx:186-189 | with unique keys the condition always holds |
| SkipListDuplicates.SeekLandsFirst | src/core/SkipList.cxx:325-334 | seek lands on the first node of a stored key if and only if the same condition holds |
| SkipListDuplicates.FirstTallestOnNodes | src/core/SkipList.cxx:186-189 | the precondition of the model's removal is this condition |
| TransactionIds.ViewpointExact | src/engine/Table.cxx:231-243 | for a beginner whose id is active the fallback branch is unreachable, the viewpoint is below every active id and the number after it is active |
| ThreadContexts.ThreadContextManager.GetNextTransactionId | src/core/ThreadContextManager.cxx:48-66 | the counter advances by one and the new id is active |
| ThreadContexts.ThreadContextManager.RemoveTransactionActive | src/core/ThreadContextManager.cxx:68-80 | exactly that id leaves the active set |
| ThreadContexts.ThreadContextManager.TransactionActive | src/core/ThreadContextManager.cxx:82-90 | true exactly for active ids |
| ThreadContexts.ThreadContextManager.GetMinActiveTransactionId | src/core/ThreadContextManager.cxx:92-103 | the least active id, 0 when there is none |
| ThreadContexts.ThreadContext.BeginTransaction | src/core/ThreadContext.cxx:25-31 | fails and keeps the open transaction, or opens one with no affected rows |
| ThreadContexts.ThreadContext.Committed | src/core/ThreadContext.cxx:33-40 | closes the open transaction, fails when there is none |
| ThreadContexts.ThreadContext.Aborted | src/core/ThreadContext.cxx:42-49 | closes the open transaction, fails when there is none |
| Viewpoints.StepHeld | src/core/ThreadContextManager.cxx:48-80 | every step keeps active ids in 1..current and held by exactly one thread each |
| Viewpoints.StepInv | src/engine/Table.cxx:231-268 | every step of every thread keeps the whole invariant |
| Viewpoints.RunInv | src/engine/Table.cxx:231-268 | the invariant holds in every state of every interleaving |
| Viewpoints.EndedStaysEnded | src/core/ThreadContextManager.cxx:48-80 | an id handed out and no longer active never becomes active again |
| Viewpoints.ViewpointSafety | src/engine/Table.cxx:231-268 | in every interleaving an open transaction's viewpoint is below its id, and every id up to it is inactive then and in every later state |
| Viewpoints.ViewpointIsLargest | src/engine/Table.cxx:235-245 | when a context opens, the viewpoint recorded in it and in the order of computation is the largest number below every active id, the id is the one taken, and the fallback is not taken |
| Viewpoints.IdsAreCounted | src/core/ThreadContextManager.cxx:48-66 | over any run ids are handed out as 1, 2, 3 and so on, and only opening a context computes a viewpoint |
| Viewpoints.EveryThreadCanStep | src/engine/Table.cxx:231-268 | in every state each thread has its next step to take, towards opening or ending with the same id, and no other thread is disturbed |
| Viewpoints.ReleasedForGood | src/engine/Table.cxx:247-268 | the id a thread releases was active and is inactive in every later state |
| Viewpoints.ViewpointsNeverDecrease | src/engine/Table.cxx:231-246 | over any run viewpoints never go back in the order they are computed |
| Viewpoints.IdsAreHeld | src/core/ThreadContextManager.cxx:48-80 | ids of transactions in progress are active and distinct, active ids are in 1..current, and none remains when all threads are idle |
| Tables.Table.BeginTransaction | src/engine/Table.cxx:231-245 | opens a transaction with the new id and its viewpoint; with one already open the id is active nevertheless |
| Tables.Table.MarkRows | src/engine/Table.cxx:354-364 | the row of every record in the affected-row list gets the status, its data and size stay |
| Tables.TouchedMeans | src/engine/Table.cxx:354-364 | the rows commit and rollback may write are exactly those of the affected-row list |
| Tables.Table.Commit | src/engine/Table.cxx:247-257 | the row of every record in the affected-row list is committed with its data kept, the context is closed, and exactly the transaction's id leaves the active set |
| Tables.Table.Rollback | src/engine/Table.cxx:259-268 | the row of every record in the affected-row list is marked aborted with its data kept, the context is closed, and exactly the transaction's id leaves the active set |
| Tables.Table.InsertRow | src/engine/Table.cxx:132-160 | outside a transaction the row is stored committed and the active set is as before; inside one it is stored unmarked and recorded |
| Tables.Table.DeleteRow | src/engine/Table.cxx:162-184 | the row of a stored key goes, and outside a transaction the active set is as before |
| Tables.Table.UpdateRow | src/engine/Table.cxx:186-212 | the row of a stored key gets the new data; outside a transaction it is committed and the active set is as before |
| Tables.MarkedEntries | src/engine/Table.cxx:354-358 | marking one row changes the status of one entry and nothing else in the index |
| Tables.TakenAndReleased | src/core/ThreadContextManager.cxx:48-80 | taking an id and releasing it leaves the active set as it was and the counter one further |
| Tables.RunRows | src/engine/Table.cxx:132-212 | over any run of row operations outside a transaction the answers are the map's, ids advance by one per operation, the active set and context are as before, and every row reachable in the index is committed |
| FileManagers.FileNameRoundTrip | src/storage/FileManager.cxx:151-153 | the number read from a path that was built for it is the number, whatever the directory and table are called |
| FileManagers.PathNumber | src/storage/FileManager.cxx:253-272 | the number between the last two dots, with or without a sign, is accepted from 0 to 255, rejected beyond, and an error of its own beyond 32 bits |
| FileManagers.DotsMissing | src/storage/FileManager.cxx:253-259 | a path is an invalid file name if and only if it has no two dots and does not start with one |
| FileManagers.DistinctIffFits | src/storage/FileManager.cxx:141-149 | a contiguous run repeats no number if and only if it has at most 256 members |
| FileManagers.AddingKeepsRing | src/storage/FileManager.cxx:141-185 | a file numbered after the last keeps a run contiguous, and duplicate-free if and only if it had fewer than 256 members |
| FileManagers.OrderFiles | src/storage/FileManager.cxx:274-305 | fails for more than 256 files, else the same files sorted by number and cut after the first gap larger than one, or not cut when there is none or all 256 are present |
| FileManagers.FindGap | src/storage/FileManager.cxx:294-298 | the first neighbours that differ by more than one, or the end |
| FileManagers.SortedUnique | src/storage/FileManager.cxx:283-286 | files with distinct numbers have one sorted arrangement |
| FileManagers.SortedFormGap | src/storage/FileManager.cxx:293-298 | a sorted contiguous run has a gap exactly where it starts, and only if it wraps with a number missing |
| FileManagers.RestartRecovers | src/storage/FileManager.cxx:274-305 | ordering any arrangement of a contiguous run gives back the run if and only if it has fewer than 256 files or starts at 0 |
| FileManagers.ContiguousUnique | src/storage/FileManager.cxx:293-304 | at most 255 files have one contiguous arrangement |
| FileManagers.FullRingAmbiguous | src/storage/FileManager.cxx:288-291 | 256 files have a contiguous arrangement from each of them on |
| FileManagers.ParsedMeans | src/storage/FileManager.cxx:46-66 | discovery yields one file per path in order, or the error of the first path without a number |
| FileManagers.FileManager.Initialize | src/storage/FileManager.cxx:42-73 | the first error wins, in the order ls paths, vs paths, ordering; otherwise both lists hold exactly the discovered files, ordered |
| FileManagers.FileManager.GetCurrentLsFile | src/storage/FileManager.cxx:83-89 | the last ls file, an error when there is none |
| FileManagers.FileManager.GetCurrentVsFile | src/storage/FileManager.cxx:91-97 | the last vs file, an error when there is none |
| FileManagers.FileManager.AddLsFile | src/storage/FileManager.cxx:141-162 | the new file is last, has number 0 on an empty list and the previous number plus one modulo 256 otherwise, and its path spells directory, table, three-digit number and .ls |
| FileManagers.FileManager.AddVsFile | src/storage/FileManager.cxx:164-185 | the new file is last, has number 0 on an empty list and the previous number plus one modulo 256 otherwise, and its path spells directory, table, three-digit number and .vs |
| FileManagers.FileManager.Validate | src/storage/FileManager.cxx:191-224 | true exactly when the lists agree number by number and are contiguous modulo 256 |
| FileManagers.AddPairs | src/storage/FileManager.cxx:141-224 | any number of paired additions to lists that agree leaves lists that validate with earlier files in place; from empty lists file i has number i modulo 256 |
| FileManagers.Restart | src/storage/FileManager.cxx:42-73 | a restarted manager given the paths in any order ends with the lists of the old one if and only if each is recoverable |
| StringUtils.NumeralRoundTrip | src/storage/Schema.cxx:76 | a printed numeral has the value printed |
| StringUtils.NumeralShortest | src/storage/Schema.cxx:76 | a printed numeral has no leading zero |
| StringUtils.Whitespace | src/utils/StringUtils.cxx:27 | whitespace is the space and the control characters 9 to 13 |
| StringUtils.SignedPrefixOfNumeral | src/storage/Schema.cxx:51 | a string of digits reads as its value without a sign |
| StringUtils.SignedPrefixReads | src/storage/FileManager.cxx:265 | leading whitespace is skipped, one sign is taken, and what follows the digits is ignored |
| StringUtils.ToUpper | src/utils/StringUtils.cxx:9-18 | each lower-case letter becomes its capital, everything else stays |
| StringUtils.Trim | src/utils/StringUtils.cxx:20-54 | the string without whitespace at its ends, except on exactly the strings where the code reads past the end |
| StringUtils.TrimmedBetween | src/utils/StringUtils.cxx:25-52 | the trimmed string is the part from the first to the last character that is not whitespace |
| StringUtils.Split | src/utils/StringUtils.cxx:56-72 | the loop yields the tokens of the string |
| StringUtils.SplitJoins | src/utils/StringUtils.cxx:56-72 | joining the tokens gives the string back, and no token holds the separator |
| StringUtils.JoinSplits | src/utils/StringUtils.cxx:56-72 | splitting joined tokens gives the tokens back |
| Columns.ColumnTypeRoundTrip | src/storage/Column.cxx:33-64 | a column type is read back from its name in any capitalisation |
| Columns.ColumnTypeNames | src/storage/Column.cxx:33-64 | the five printed names, and each of the four types is read from exactly the spellings of its name in any case |
| Columns.KeyTypeRoundTrip | src/storage/Column.cxx:66-92 | a key type is read back from its name in any capitalisation |
| Columns.KeyTypeNames | src/storage/Column.cxx:66-92 | the four printed names, and each of the three key types is read from exactly the spellings of its name in any case |
| Schemas.LayoutUnique | src/storage/Schema.cxx:85-104 | the columns determine the offset map, total size, primary fields and fixed-size flags |
| Schemas.StartExact | src/storage/Schema.cxx:91-92 | a column's stored start, and the total, are exact if and only if the sizes before it fit 16 bits |
| Schemas.FieldsDisjoint | src/storage/Schema.cxx:85-104 | with distinct names and a total of at most 65535, offsets are sums of the sizes before and fields are disjoint and inside the row |
| Schemas.FieldsAdjacent | src/storage/Schema.cxx:85-104 | under the same conditions the first column starts at 0, each next one where the one before ends, and the total size is the end of the last |
| Schemas.TotalMeans | src/storage/Schema.cxx:92 | the empty schema has size 0 and every column adds its own size |
| Schemas.Schema.constructor | src/storage/Schema.cxx:18-24 | a new schema has no column, no offset, sizes 0 and both fixed-size flags set |
| Schemas.Schema.AddColumn | src/storage/Schema.cxx:85-104 | the column is appended at the old total size, which grows by its size modulo 65536; primary fields and flags change as its key type and size say; the layout again describes all columns |
| Schemas.Schema.GetOffset | src/storage/Schema.cxx:128-130 | missing exactly when no column has the name, else where the last column of that name starts |
| Schemas.Schema.Read | src/storage/Schema.cxx:26-63 | the columns of the lines up to the first error are added, the error is reported, and the layout describes them |
| Schemas.SkippedIffIgnorable | src/storage/Schema.cxx:35-37 | a line is passed over if and only if it is blank or its first character that is not whitespace is #, except for a # at the very front with only whitespace after it |
| Schemas.IgnoredLine | src/storage/Schema.cxx:35-37 | a blank line or a comment changes nothing about how the rest of the text reads |
| Schemas.ItemsRead | src/storage/Schema.cxx:35-62 | printed columns with whitespace around them and ignorable lines anywhere between read as the columns, followed by whatever the rest of the text gives |
| Schemas.FileRead | src/storage/Schema.cxx:35-62 | a whole file of such lines reads back as its columns without an error |
| Schemas.ErrorStops | src/storage/Schema.cxx:35-62 | after any such lines a line that fails ends the reading with its error, and the columns before it stay |
| Schemas.FailedLines | src/storage/Schema.cxx:38-47 | a line overruns trimming exactly when only its first character is not whitespace, and is invalid exactly when it is not ignorable and does not hold three colons |
| Schemas.FieldsOfLine | src/storage/Schema.cxx:50-53 | the size field is read with its sign and cut to 16 bits, and one of 2^64 or more is an error |
| Schemas.SizeMissing | src/storage/Schema.cxx:51 | a size field without digits is an error |
| Schemas.LastLine | src/storage/Schema.cxx:35 | a last line is read whether or not a newline ends it |
| Schemas.Schema.Write | src/storage/Schema.cxx:65-83 | the text is the printed columns, one line each |
| Schemas.PrintedRow | src/storage/Schema.cxx:74-80 | each column adds one line at the end, its four fields between colons |
| Schemas.LineRoundTrip | src/storage/Schema.cxx:38-61 | a printed line with a good name is read back as its column |
| Schemas.NamesReadAreGood | src/storage/Schema.cxx:35-62 | whatever the text, a name read from it holds no colon or newline and does not start with `#` or whitespace |
| Schemas.PrintReadRoundTrip | src/storage/Schema.cxx:26-83 | reading undoes printing if and only if all names are of that form |
| Schemas.ReadIsCanonical | src/storage/Schema.cxx:26-83 | printing what was read from any text and reading it again changes nothing |
| Schemas.WriteThenRead | src/storage/Schema.cxx:26-104 | a fresh schema that reads what another wrote has the same columns and the same derived layout if and only if all names are of that form |

## Left out

- SkipLists.SkipList.Remove: on a non-primary index it requires the first equal node to be a tallest one, the condition under which the assertion of the source holds; `SkipListDuplicates.RemovalMeetsOneNode` shows that the condition is exact.
- SkipLists.SkipList.Seek: a bounded seek requires a stored key at or past the argument, because the iterator reads its node's key without a null test.
- Tables.Table.DeleteRow: inside an open transaction the row must not be one the transaction has touched, because the source deletes a row info that the transaction still points to.
- FileManagers.FileManager.Validate: requires at least as many vs as ls files, because the source indexes both lists by the length of the first.
- Key width: keys are mathematical integers that are only compared, `size_t` ranks, widths, sizes and ids are unbounded; that subtractions do not wrap is proved, that additions stay below 2^64 is not.
- Memory: node and row destructors, freeing of row data, and who owns it; a removed node is only unlinked and its row cut loose.
- `memoryUsageMB`, logging, configuration, queue and cleanup helpers: plumbing.
- The distribution of random heights: the generator's bit is an arbitrary choice.
- Concurrent access to the skip list, and the locks themselves: a locked section is one atomic step of `Viewpoints`.
- The iterator's postfix increment, comparison operators, and `end`: they only copy or compare two fields.
- Row versions: a row info's chain link, value-file position and dirty flag are never set by the code modelled.
- Reading the key out of a row's bytes: row operations take the integer at the primary offset as a parameter; `readInt32` and `readInt64` copy raw bytes.
- Secondary indexes, the commit log, recovery, startup and file removal: unimplemented in the source.
- Isolation and undo: rollback marks rows as aborted and scans ignore the mark, so no visibility or restore property is decided by the code.
- Table creation (`addColumn`, `addIndex`, `finalizeSchema`, `createIndexes`): flag checks in front of `Schemas.Schema.AddColumn` and `SkipLists.SkipList.Initialize`.
- Real files: a directory is the list of its paths, a schema file is its text; opening, permissions and matching file names against the table name are not modelled, and looking a file up by number is a plain search.
- `std::sort` is an insertion sort whose contract is only that the result is sorted and has the same elements; `find_last_of`, `getline`, `stoi` and `stoul` are functions that follow their definitions in the C++ standard library.
- Characters beyond ASCII: whitespace and capitals are those of the C locale.
