# AirDC++ core: a verified model

This project models the parts of the AirDC++ client core whose correctness is hardest to see, and proves
what they are meant to guarantee. The directories of a file list, the hash databases, the hashers and their
queues, the search commands and the connection items are modelled with the branches, constants and error
cases of the C++ code. Code that works step by step is written as methods over arrays, object fields and
loops, and each method is proved against a pure function or relation; the promises of the code are then
proved about those, for all inputs, all documents or all runs.

The files, by subject:

- `NmdcEscape`: the escaping of NMDC messages by in-place find/replace passes.
- `MerkleTree`: the streaming tree hash with its binary counter of blocks, against the recursive definition.
- `HashStore`, `HashRecords`, `MaintenanceRace`: the byte records of the hash store, the mark-and-sweep
  maintenance of its two databases, and maintenance while a file is being hashed.
- `Ordering`, `HasherQueue`, `HasherWorker`, `HasherOrder`, `HashScheduling`, `HashChoice`, `HasherIds`,
  `HashManagement`: the queue and worker thread of a hasher as atomic sections, and the choice of a hasher under
  the limits, in every interleaving.
- `AutoSearchSchedule`: the weekly schedule of an automatic search.
- `Names`, `DirectoryTree`: names compared without case, unique names, trees of directories and places in them.
- `AdlTree`, `AdlSteps`, `AdlDestinations`, `AdlSearch`, `AdlCopies`, `AdlFiles`: the ADL search pass over a file list,
  which builds copies of matched subtrees through one cursor per destination.
- `SearchTable`, `SearchGroups`, `SearchNumbers`, `SearchSelection`, `SearchCommands`, `SearchReceiver`,
  `SearchArrivals`, `SearchDifference`, `SearchAlignment`, `SearchMisread`: the compression of file extensions
  into groups (the SEGA extension of ADC), who receives which form of a search, and how the receiver reads it.
- `ConnectionQueue`, `ConnectionRuns`, `ConnectionEffects`, `Connections`: the pool of download items per
  user through connect, run, idle and fail events; `RemoteLimits`, `LateCreation`, `SmallSlots`: where its
  promises fail.
- `ListDifference`, `ListPaths`, `ListDocument`, `MergedLists`, `ListAttributes`, `ListLoading`, `PartialLists`,
  `PartialContent`: subtracting file lists, printing and finding paths, and loading whole and partial lists from
  their tags.
- `InfUpdates`: INF commands that only carry changed fields.

Some of the promises turned out not to hold on all inputs. For these the code is modelled as it is, a lemma
shows a concrete case, and another one says exactly when the promise does hold:

- A tree that falls into a run of `optimize` before its second snapshot, with the entry after the first one, is
  removed again, and a file hashed again can lose its new entry to the old one's deletion (`MaintenanceRace`).
- An empty piece fed to the tree hash before any data makes a block of its own, and the root is wrong
  (`MerkleTree`).
- `Hasher::stop` on a sleeping worker loses the next wake-up, and on a worker with a file in flight it breaks
  the device counts; the byte total goes wrong when a file shrinks or grows while it is read (`HasherWorker`).
  Ids of hashers can repeat, and then queued files get out of sight (`HasherIds`).
- The time at which a search schedule turns searching off skips the end of today's window when tomorrow is
  enabled, unless the windows touch (`AutoSearchSchedule`).
- Extension groups lose extensions that are listed twice, and no extension at all is sent when no group is found
  (`SearchSelection`); the receiver can miss exclusions when two groups are used, because it takes the
  difference of unsorted lists, and then its answers on file names differ from those to the plain form
  (`SearchMisread`).
- Between the check and the creation in `onDownloadRunning` another item can be created (`LateCreation`); the
  remote limit asked is that of the last item in the list (`RemoteLimits`); and with small slots a user can get
  two waiting or two small items (`SmallSlots`).
- The directory called Discard is kept when the list itself has one of that name (`AdlDestinations`).
- A partial list about another directory is refused only after the old content was cleared (`PartialContent`),
  and the assertion that the base directory is found fails for paths with empty parts (`PartialLists`).
- A stopped INF command is recorded as sent (`InfUpdates`).

## Model

| member | source | states |
|---|---|---|
| NmdcEscape.ReplacePass | airdcpp/hub/NmdcHub.cpp:1053-1094 | One in-place find/replace loop over the growing string, for any pattern, ends and computes the left-to-right substitution of all matches of the original text |
| NmdcEscape.PassRound | airdcpp/hub/NmdcHub.cpp:1068-1094 | The reason a loop ends although its string grows: from one match to the next the length minus the match position drops, while the text the pass will end with stays the same |
| NmdcEscape.ValidateMessage | airdcpp/hub/NmdcHub.cpp:1050-1098 | Escaping gives the single-scan escape of the message, unescaping the three reverse passes |
| NmdcEscape.PassesComputeEscape | airdcpp/hub/NmdcHub.cpp:1066-1094 | The five escape passes together equal one left-to-right scan with lookahead, on every string |
| NmdcEscape.UnescapeInvertsEscape | airdcpp/hub/NmdcHub.cpp:1050-1098 | Unescaping an escaped message gives it back, on every string |
| NmdcEscape.EscapeInjective | airdcpp/hub/NmdcHub.cpp:1050-1098 | No two messages have the same escaped form |
| NmdcEscape.EscapedIsFrameSafe | airdcpp/hub/NmdcHub.cpp:1066-1094 | An escaped message has no dollar sign and no vertical bar, is not shorter than the message and at most six times as long |
| NmdcEscape.EscapedByCharacter | airdcpp/hub/NmdcHub.cpp:1066-1094 | Character by character: each dollar sign becomes `&#36;` and each vertical bar `&#124;`, an ampersand becomes `&amp;` exactly where the message has one of the three sequences, and all else stays |
| MerkleTree.CalcBlockSize | airdcpp/hash/value/MerkleTree.h:79-85 | The block size is the smallest doubling of 1024 with which the leaves stay within 2^(maxLevels-1) |
| MerkleTree.BaseHashesExactly | airdcpp/hash/value/MerkleTree.h:99-122 | The k-th base hash is that of the k-th 1024 bytes of the data, the last ones possibly fewer; no data has one base hash |
| MerkleTree.Tree.Update | airdcpp/hash/value/MerkleTree.h:99-122 | Feeding a piece, empty ones included, keeps leaves and pending blocks holding exactly the base hashes of everything fed so far; an empty piece fed first makes a block of its own |
| MerkleTree.Tree.ReduceBlocks | airdcpp/hash/value/MerkleTree.h:208-226 | Carrying in the stack of pending blocks ends with a binary counter again, moves full blocks to the leaves and loses no base hash |
| MerkleTree.CarryStep | airdcpp/hash/value/MerkleTree.h:208-226 | Joining two equal neighbours gives the root of both together, and either fills a leaf alone or keeps the sizes falling towards the top |
| MerkleTree.FoldStep | airdcpp/hash/value/MerkleTree.h:129-134 | Folding the newest pending block into the one before keeps the roots and the order of what the blocks stand for |
| MerkleTree.Tree.Finalize | airdcpp/hash/value/MerkleTree.h:124-141 | The streamed root is what the leaves of everything hashed lead to; unless an empty piece was fed in front of data it equals the tree hash of the whole data defined directly over its 1024-byte blocks, and the leaves are as many as calcBlocks says |
| MerkleTree.StreamRootExactly | airdcpp/hash/value/MerkleTree.h:99-122 | With hashes that do not collide, the streamed root is that of the data exactly if no empty piece was fed in front of it |
| MerkleTree.EarlyBlockHidesData | airdcpp/hash/value/MerkleTree.h:99-122 | After an empty piece, with one base block per leaf, every piece of up to 1024 bytes gets the root of no data at all |
| MerkleTree.EarlyPieceMisread | airdcpp/hash/value/MerkleTree.h:99-122 | There are hashes without collisions, terms, and with them any data after an empty piece gets a wrong root |
| MerkleTree.LeafCount | airdcpp/hash/value/MerkleTree.h:87-89 | Grouping the base hashes gives exactly the number of leaves calcBlocks asks for |
| MerkleTree.LeavesGiveRoot | airdcpp/hash/value/MerkleTree.h:186-197 | The recursion over stored leaves gives the root of the base hashes, for every block size that is 1024 times a power of two |
| MerkleTree.BlockSizeIrrelevant | airdcpp/hash/value/MerkleTree.h:186-197 | Trees over the same data with different block sizes have the same root |
| MerkleTree.RootJoin | airdcpp/hash/value/MerkleTree.h:186-206 | Two neighbouring trees join by one combine step when the left one is full and not the smaller one |
| HashStore.SaveFileInfo | airdcpp/hash/HashStore.cpp:279-297 | The buffer filled through the moving pointer is the record of version, time stamp, root and size |
| HashStore.FileInfoRoundTrip | airdcpp/hash/HashStore.cpp:249-297 | loadFileInfo gives back every entry that saveFileInfo writes |
| HashStore.Int64RoundTrip | airdcpp/hash/HashStore.cpp:149-184 | A signed 64-bit size survives being stored as eight bytes |
| HashStore.EncodeTree | airdcpp/hash/HashStore.cpp:149-184 | The buffer that addTree fills is the tree record: version, sizes, and leaf bytes only if there are several leaves |
| HashStore.TreeRoundTrip | airdcpp/hash/HashStore.cpp:149-247 | Every well-formed tree comes back from its record with the same sizes, root and leaves, single-leaf trees without leaf bytes included |
| HashStore.LoadedIsGenuine | airdcpp/hash/HashStore.cpp:209-247 | Whatever loads under a key is a well-formed tree with that root; leaf bytes that do not hash to the key are never accepted |
| HashStore.RootInfoAgrees | airdcpp/hash/HashStore.cpp:303-326 | Both sizes read straight from the header are those of the stored tree |
| HashRecords.FileLayout | airdcpp/hash/HashStore.cpp:279-297 | The 41 bytes of a file entry: version 1, the time stamp lowest byte first, the root, the signed size |
| HashRecords.FileReadExactly | airdcpp/hash/HashStore.cpp:249-277 | An entry is loaded exactly from 41 bytes of version 0 or 1, and is what they hold |
| HashRecords.TreeLayout | airdcpp/hash/HashStore.cpp:149-184 | The bytes of a tree record: version 1, the two sizes, and the leaves one after the other if there are several |
| HashRecords.TreeReadExactly | airdcpp/hash/HashStore.cpp:209-247 | Short and newer records are refused, a bare header is a tree of the root alone, and otherwise sizes and leaves are what the record holds |
| HashRecords.InfoReadExactly | airdcpp/hash/HashStore.cpp:303-326 | Each size is read from its place in the header, and is zero for a newer record |
| HashStore.Store.AddHashedFile | airdcpp/hash/HashStore.cpp:92-95 | The tree and the entry are stored under root and path |
| HashStore.Store.SweepFiles | airdcpp/hash/HashStore.cpp:374-397 | The first sweep leaves the shared entries that load and marks their roots |
| HashStore.Store.SweepTrees | airdcpp/hash/HashStore.cpp:399-428 | The second sweep leaves the queued or marked trees (that load, when verifying) and unmarks the roots it keeps |
| HashStore.Store.SweepMissing | airdcpp/hash/HashStore.cpp:430-448 | The third sweep, over the old snapshot, leaves exactly the live entries whose root is no longer marked |
| HashStore.Store.Optimize | airdcpp/hash/HashStore.cpp:353-451 | A run that a database error ends after any number of sweeps leaves what those sweeps alone leave; a complete run leaves the exact collection |
| HashStore.MarkedAreMissing | airdcpp/hash/HashStore.cpp:399-448 | What is still marked after the second sweep is exactly what lost its tree |
| HashStore.CollectIsExact | airdcpp/hash/HashStore.cpp:367-451 | The surviving entries are exactly those shared, loadable and with an intact tree; the surviving trees exactly those queued or used by such an entry and intact; no entry dangles, no tree is garbage, no record changes |
| HashStore.RunsCompose | airdcpp/hash/HashStore.cpp:353-451 | After a run of either kind, another of either kind leaves what one run leaves that verifies if one of them did |
| HashStore.OptimizeIdempotent | airdcpp/hash/HashStore.cpp:353-451 | A second run of the same kind changes nothing |
| HashStore.AbortedRunIsHarmless | airdcpp/hash/HashStore.cpp:367-451 | A run cut short after any sweep does not change what a later complete run leaves |
| HashStore.AbortedExactly | airdcpp/hash/HashStore.cpp:367-451 | Which entries and trees are left when a database error ends a run before its third sweep |
| MaintenanceRace.BatchesCollect | airdcpp/hash/HashStore.cpp:367-451 | With nothing written meanwhile, a run over the two snapshots in three batches is the exact collection, whatever the order of the keys |
| MaintenanceRace.TreeLostExactly | airdcpp/hash/HashStore.cpp:367-451 | With any number of trees and entries written at any moments of a run: a tree is lost exactly if the second batch is still to come and the tree snapshot has its root as one to drop; a kept one has the record written |
| MaintenanceRace.EntryLostExactly | airdcpp/hash/HashStore.cpp:367-451 | Likewise for an entry and the first and third batch |
| MaintenanceRace.NewTreeLostExactly | airdcpp/hash/HashStore.cpp:367-451 | For one addHashedFile, its two writes at any two of the six moments of a run: exactly when the tree is lost, from the databases before the run |
| MaintenanceRace.NewEntryLostExactly | airdcpp/hash/HashStore.cpp:367-451 | And exactly when the entry is lost: a path hashed before loses it to the deletion of the old record, by the first sweep or by the third, which for a record that does not load tests the entry loaded before it |
| MaintenanceRace.PromiseBroken | airdcpp/hash/HashStore.cpp:367-373 | The comment that trees added during the operation are not removed fails with empty databases, for a tree written before the tree snapshot and an entry after its own: between the two, or before both and after both |
| MaintenanceRace.EntryLostToOldOne | airdcpp/hash/HashStore.cpp:374-397 | A file hashed again and not shared loses its new entry to the deletion of the old one |
| MaintenanceRace.FreshRootSafeAfterSnapshots | airdcpp/hash/HashStore.cpp:367-373 | A root that the tree snapshot does not have is safe |
| Ordering.PathLessOrder | airdcpp/util/PathUtil.cpp:282-289 | Directory first, then whole path, is a strict total order |
| Ordering.DirectoryFirst | airdcpp/util/PathUtil.cpp:282-289 | Files of different directories are in the order of the directories, files of one directory in the order of their names |
| HasherQueue.DirectoryTogether | airdcpp/util/PathUtil.cpp:282-289 | In a sorted queue the items of one directory stand together |
| HasherQueue.GetPos | airdcpp/core/classes/SortedVector.h:110-131 | The binary search finds the path or the one place where it belongs |
| HasherQueue.EmplaceSorted | airdcpp/core/classes/SortedVector.h:57-80 | Insertion keeps the queue in order and refuses a path that is there |
| HasherQueue.WithoutExact | airdcpp/hash/Hasher.cpp:149-159 | Removing a directory leaves exactly the items not under it |
| HasherWorker.Hasher.HashFile | airdcpp/hash/Hasher.cpp:134-147 | Queueing under the lock: queue, device count, byte total and one signal, unless the path is queued |
| HasherWorker.Hasher.RemoveDevice | airdcpp/hash/Hasher.cpp:67-75 | One less for the device, and no entry with zero |
| HasherWorker.Hasher.StopHashing | airdcpp/hash/Hasher.cpp:149-159 | The removal loop takes out every item under the directory with its counts |
| HasherWorker.PurgeLeaves | airdcpp/hash/Hasher.cpp:149-159 | Removing while walking leaves exactly the items not under the directory, in order |
| HasherWorker.Hasher.Stop | airdcpp/hash/Hasher.cpp:161-164 | Clears queue and counts and sets the stop flag |
| HasherWorker.Hasher.Shutdown | airdcpp/hash/Hasher.cpp:166-175 | Stops for good and signals the worker |
| HasherWorker.Hasher.WorkerSection | airdcpp/hash/Hasher.cpp:319-450 | Each atomic section of the worker does the step of the machine, and leaves the list only with an empty queue or on shutdown |
| HasherWorker.StepConserves | airdcpp/hash/Hasher.cpp:228-318 | Each step keeps the device counts, for success, CRC mismatch, failure at any point and a size that changed or changes while the file is read; and the byte total is off by exactly what the step says |
| HasherWorker.StepConservesExactly | airdcpp/hash/Hasher.cpp:228-318 | The accounts survive a step exactly if it is harmless |
| HasherWorker.ReadHarmless | airdcpp/hash/Hasher.cpp:228-318 | A read of no more than the file had left when it was opened is harmless |
| HasherWorker.RunsConserve | airdcpp/hash/Hasher.cpp:134-406 | In every run, stops and changing files included, all accounts are right at every moment exactly if every step is harmless: no stop in flight, no file that ends with more or less read than it had, no read with nothing left in the total |
| HasherWorker.RunsCount | airdcpp/hash/Hasher.cpp:134-406 | In every run without a stop the device counts are right, whatever happens to the files |
| HasherWorker.StopCountsExactly | airdcpp/hash/Hasher.cpp:161-164 | A stop keeps the device counts exactly if no item is in flight |
| HasherWorker.StepKeepsAwake | airdcpp/hash/Hasher.cpp:319-450 | No step but a stop of a sleeping worker can leave it asleep with work and without a signal |
| HasherWorker.NeverStuck | airdcpp/hash/Hasher.cpp:319-450 | In every interleaving without such a stop, a worker waiting on a non-empty queue has a signal pending, and one that left has an empty queue |
| HasherWorker.SleepyStopLosesWakeUp | airdcpp/hash/Hasher.cpp:161-164 | The condition is exact: after such a stop the next queued file is left lying |
| HasherOrder.PickedInOrder | airdcpp/hash/Hasher.cpp:319-340 | While nothing is queued, files are taken in the order of their paths, each once |
| HasherOrder.ShutdownEnds | airdcpp/hash/Hasher.cpp:166-175 | Whatever happens after a shutdown: no file is accepted, and within six steps of its own the worker is out of the list |
| HashManagement.HashManager.PathQueued | airdcpp/hash/HashManager.cpp:154-162 | Whether a listed hasher has the path queued |
| HashManagement.HashManager.CreateHasher | airdcpp/hash/HashManager.cpp:164-178 | The new hasher has the id of the first gap by position |
| HashManagement.HashManager.GetFileHasher | airdcpp/hash/HashManager.cpp:180-210 | The choice among the hashers of the volume, the idle ones and a new one |
| HashChoice.FileGoes | airdcpp/hash/HashManager.cpp:180-240 | For a path that is not queued: a new hasher gets the file exactly if the idle main hasher is not alone, there are fewer than the limit, and no hasher holds the volume, or it may have more and the file is larger than 10 MB or all its hashers have more than 200 MB left; otherwise the first with the least bytes left gets it, of those that hold the volume, or of all |
| HashManagement.HashManager.HashFile | airdcpp/hash/HashManager.cpp:212-240 | A file is queued exactly if its path was queued nowhere and there was no shutdown, with the chosen hasher or a new one |
| HashManagement.HashManager.RemoveHasher | airdcpp/hash/HashManager.cpp:77-80 | All hashers with the id go |
| HashManagement.HashManager.StopHashing | airdcpp/hash/HashManager.cpp:309-313 | Every hasher drops the items under the directory |
| HashManagement.HashManager.Stop | airdcpp/hash/HashManager.cpp:397-402 | Every hasher is stopped |
| HashManagement.HashManager.Shutdown | airdcpp/hash/HashManager.cpp:375-395 | Every hasher is shut down, and no file is queued any more |
| HashScheduling.AddKeeps | airdcpp/hash/HashManager.cpp:180-240 | Queueing keeps all the bounds: the chosen hasher already holds the volume, or the volume has room |
| HashScheduling.EventKeeps | airdcpp/hash/HashManager.cpp:154-240 | So does every worker section and removal between two queueings |
| HashScheduling.RunsBounded | airdcpp/hash/HashManager.cpp:154-240 | In every run, stops and shutdown included: hashers within MAX_HASHING_THREADS, hashers that hold a volume within HASHERS_PER_VOLUME, no path queued in two places |
| HashScheduling.RunsSound | airdcpp/hash/HashManager.cpp:154-240 | In every run without a stop or shutdown: these bounds, the main hasher in its place, device counts and wake-ups right |
| HashScheduling.HoldersAreBusy | airdcpp/hash/HashManager.cpp:180-210 | While the device counts are right, the hashers that hold a volume are those with a file of it queued or in flight |
| HashScheduling.RunTotalsExactly | airdcpp/hash/HashManager.cpp:180-210 | In every run, stops included: the byte totals that decide who gets a file are right at every moment exactly if each event keeps them, the sections of the worker being harmless |
| HashScheduling.StartSound | airdcpp/hash/HashManager.cpp:164-178 | The single idle main hasher meets all bounds |
| HasherIds.FreeIdInOrderedList | airdcpp/hash/HashManager.cpp:164-178 | In an ordered list the chosen id is new; the list stays ordered exactly if it had no gap |
| HasherIds.FreeIdNewExactly | airdcpp/hash/HashManager.cpp:164-178 | In any list the chosen id is new exactly if no id stands behind its own place while all places before that are in order and the place itself is not |
| HasherIds.EventOneEachExactly | airdcpp/hash/HashManager.cpp:164-178 | Ids stay unique through an event exactly if it creates no hasher in such a list |
| HasherIds.UniqueExactly | airdcpp/hash/HashManager.cpp:154-240 | So in every run: ids are unique at every moment exactly if that never happens |
| HasherIds.IdsCanRepeat | airdcpp/hash/HashManager.cpp:164-178 | A run from the start, for any four files on four volumes, that ends with two hashers of the same id |
| HasherIds.RepeatedLosesFile | airdcpp/hash/HashManager.cpp:77-80 | When the first of the two is done both go, and the file queued with the other is no longer seen |
| HasherIds.QueuedAfterRemoval | airdcpp/hash/HashManager.cpp:77-80 | Which paths are still seen after a hasher was removed by id |
| HasherIds.ExitLosesFilesExactly | airdcpp/hash/HashManager.cpp:77-80 | A leaving worker takes queued files out of sight exactly if another hasher with its id has a non-empty queue |
| AutoSearchSchedule.AutoSearch.FindDay | airdcpp/modules/AutoSearch.cpp:374-393 | The walk round the week finds the first day that is set as wanted among six |
| AutoSearchSchedule.AutoSearch.AddTime | airdcpp/modules/AutoSearch.cpp:374-404 | Day search and clock step together move to the wanted day and to the given minute unless it has passed |
| AutoSearchSchedule.AutoSearch.UpdateSearchTime | airdcpp/modules/AutoSearch.cpp:356-423 | The always-on test, the disable flag and the stored time |
| AutoSearchSchedule.AlwaysOnExactly | airdcpp/modules/AutoSearch.cpp:357-361 | The search is unlimited exactly if every minute is allowed |
| AutoSearchSchedule.SecondsOf | airdcpp/modules/AutoSearch.cpp:374-404 | Seconds are kept only in a time to enable on the same day |
| AutoSearchSchedule.DisableExactlyInWindow | airdcpp/modules/AutoSearch.cpp:404-413 | nextIsDisable is set exactly when now lies in an allowed window |
| AutoSearchSchedule.NextEnableIsLeast | airdcpp/modules/AutoSearch.cpp:366-404 | Outside the windows the computed time is in the least allowed minute after now, past the end of the week if need be |
| AutoSearchSchedule.OvernightNeverAllowed | airdcpp/modules/AutoSearch.cpp:366-404 | With the start after the end no minute is allowed |
| AutoSearchSchedule.DisableRightExactly | airdcpp/modules/AutoSearch.cpp:404-410 | Inside a window the computed time is the end of the current stretch exactly when tomorrow is disabled or the windows of consecutive days touch |
| Names.NumberedInjective | airdcpp/filelist/DirectoryListingDirectory.cpp:88-97 | Numbered names differ, in any case, when the number or the name does |
| Names.TakenBound | airdcpp/filelist/DirectoryListingDirectory.cpp:88-97 | Only as many numbers can be taken as there are names, which is why the search ends |
| Names.FindName | airdcpp/filelist/DirectoryListingDirectory.cpp:84-97 | The loop gives the name if it is free and else the first free numbered one |
| Names.UniqueExactly | airdcpp/filelist/DirectoryListingDirectory.cpp:84-97 | A name that is taken gets a space and, in parentheses, the decimal digits of the least number from one on with which it is free |
| Names.SameExactly | airdcpp/filelist/DirectoryListingDirectory.cpp:84-97 | Names are the same exactly if they differ in the case of letters at most |
| AdlSearch.ADLSearchManager.MatchesFile | airdcpp/modules/ADLSearch.cpp:432-478 | Each destination gets the file into its open copy, and into the destination itself if a search chosen in list order hits it |
| AdlSearch.ADLSearchManager.MatchesDirectory | airdcpp/modules/ADLSearch.cpp:480-510 | Each open cursor goes into a copy of the directory; closed destinations that are hit get a new copy |
| AdlSearch.ADLSearchManager.CreateVirtual | airdcpp/filelist/DirectoryListingDirectory.cpp:84-108 | The new directory has a free name and no content |
| AdlSearch.ADLSearchManager.StepUpDirectory | airdcpp/modules/ADLSearch.cpp:512-521 | Each cursor goes to the parent, or to null from a top-level copy |
| AdlSearch.ADLSearchManager.MatchRecurse | airdcpp/modules/ADLSearch.cpp:606-623 | The whole walk leaves every destination as the pure definition says: closed ones with the copies of the topmost hits, open ones with a full copy at the cursor, all with the hit files |
| AdlSearch.ADLSearchManager.PrepareDestinationDirectories | airdcpp/modules/ADLSearch.cpp:534-567 | Destinations have different names, each search has the one it names, and each but the default one is named by a search |
| AdlSearch.ADLSearchManager.FinalizeDestinationDirectories | airdcpp/modules/ADLSearch.cpp:569-584 | The directories with content, but for Discard, are added under their keys |
| AdlSearch.ADLSearchManager.MatchListing | airdcpp/modules/ADLSearch.cpp:586-604 | The list afterwards: the old directories, then every destination with content, none lost, filled as defined |
| AdlTree.ChildStep | airdcpp/modules/ADLSearch.cpp:606-623 | One subdirectory entered and visited, whatever cursors are open, is one step of the pure definition |
| AdlTree.CreateThenVisit | airdcpp/modules/ADLSearch.cpp:480-510 | A new copy filled by the visit of a directory equals that directory but for its unique name |
| AdlTree.FileStep | airdcpp/modules/ADLSearch.cpp:432-478 | One file is one step of the pure definition |
| AdlTree.CursorRestored | airdcpp/modules/ADLSearch.cpp:606-623 | Handling one child leaves every cursor where it was, for either setting of break-on-first |
| AdlDestinations.TitlesDiffer | airdcpp/modules/ADLSearch.cpp:523-532 | Destinations with different names get directories with different names |
| AdlDestinations.NoneLost | airdcpp/modules/ADLSearch.cpp:569-584 | So adding them never meets a taken key |
| AdlDestinations.DiscardedExactly | airdcpp/modules/ADLSearch.cpp:569-584 | A destination is thrown away exactly if it is called Discard and the list has no directory of the quoted name |
| AdlDestinations.ListedExactly | airdcpp/modules/ADLSearch.cpp:523-584 | A destination comes to the list exactly if something is in it and it is not thrown away, under its quoted name, which gets a number where it is taken |
| AdlDestinations.KeptInOrder | airdcpp/modules/ADLSearch.cpp:569-584 | The destinations that come to the list keep their order |
| AdlCopies.EveryWantedIsHit | airdcpp/modules/ADLSearch.cpp:480-510 | Without break-on-first an item hits exactly the destinations some search wants it for |
| AdlCopies.FirstIsHit | airdcpp/modules/ADLSearch.cpp:432-510 | With it an item hits a destination exactly if that is the destination of the first matching search whose destination is free |
| AdlCopies.AtMostOneHit | airdcpp/modules/ADLSearch.cpp:432-478 | With it an item hits at most one destination |
| AdlCopies.CopiesAreOpened | airdcpp/modules/ADLSearch.cpp:606-623 | For either setting a destination gets one copy of every directory at which it opens, in list order |
| AdlCopies.CopiesAreTopmost | airdcpp/modules/ADLSearch.cpp:606-623 | Without break-on-first these are the matching directories that are not inside another one, whatever the other searches do |
| AdlCopies.FirstFreeCopied | airdcpp/modules/ADLSearch.cpp:480-510 | With it they are those where the first matching search whose destination copies no directory around is one for this destination |
| AdlCopies.CopiedOnce | airdcpp/modules/ADLSearch.cpp:480-510 | With it no directory is copied to two destinations |
| AdlCopies.CopiesAreFaithful | airdcpp/filelist/DirectoryListingDirectory.cpp:84-108 | Copies are complete and in order; only the top name may get a number, and the names differ |
| AdlCopies.FilesAreHits | airdcpp/modules/ADLSearch.cpp:606-623 | A destination gets, in the order of the walk, exactly the files that hit it |
| AdlCopies.TakesExactly | airdcpp/modules/ADLSearch.cpp:153-191 | A search takes a directory or file exactly if it is active, made for such items, its pattern holds of the name or of the whole path, and the size is within its limits, where negative limits and sizes do not count |
| AdlFiles.FilesReceived | airdcpp/modules/ADLSearch.cpp:432-478 | What a destination has in the end are, in the order of the walk, exactly the named files that a search for it takes, with break-on-first as the first search that takes them |
| AdlFiles.PathSeen | airdcpp/util/PathUtil.cpp:182-193 | The path a search sees is the names of the directories and of the file with backslashes between them |
| AdlFiles.InactiveFillsNothing | airdcpp/modules/ADLSearch.cpp:153-191 | A destination whose searches are all inactive stays empty |
| SearchTable.TableIsGood | airdcpp/hub/AdcHub.cpp:56-64 | Every group of the table is in alphabetical order and no extension is in two groups |
| SearchGroups.BitAdded | airdcpp/hub/AdcHub.cpp:1103-1145 | Adding the bit of a new group sets that bit only |
| SearchGroups.SetSymmetricDifference | airdcpp/hub/AdcHub.cpp:1108-1112 | The merge computes the symmetric difference of the standard library |
| SearchGroups.Split | airdcpp/hub/AdcHub.cpp:1114-1131 | The inner loop parts the list into members of the group and others, or gives up at a third member |
| SearchGroups.GroupExtensions | airdcpp/hub/AdcHub.cpp:1103-1145 | The loop over the groups computes the grouping function |
| SearchNumbers.NumberOf | airdcpp/hub/AdcHub.cpp:1103-1145 | The number sent for a list of extensions is the sum of two to the power of k for the groups k of which at most two have to be taken away |
| SearchGroups.SymDiffCount | airdcpp/hub/AdcHub.cpp:1108-1112 | On sorted lists the merge leaves each extension as often as the counts differ |
| SearchGroups.GroupingMeans | airdcpp/hub/AdcHub.cpp:1103-1145 | For sorted input, mask, additions and exclusions stand for every given extension except those listed twice in a selected group |
| SearchSelection.GroupingRightExactly | airdcpp/hub/AdcHub.cpp:1103-1145 | The encoding stands for the given extensions exactly if no group of which at most two have to be taken away has one that is listed twice |
| SearchGroups.GroupingParts | airdcpp/hub/AdcHub.cpp:1103-1145 | Exclusions are the missing members of selected groups, at most two a group; the rest stays sorted |
| SearchSelection.PassedExactly | airdcpp/hub/AdcHub.cpp:1103-1132 | A group is passed over exactly if more than two extensions would have to be taken away, repetitions counted |
| SearchSelection.SelectedExactly | airdcpp/hub/AdcHub.cpp:1103-1145 | With groups of more than four, like those of the table, the selected groups are all those of which at most two have to be taken away: the loop never stops before one of them |
| SearchSelection.NothingSelectedExactly | airdcpp/hub/AdcHub.cpp:1165-1167 | No group is found, and no extension sent, exactly if that goes for every group |
| SearchCommands.SortSorts | airdcpp/hub/AdcHub.cpp:1159-1161 | The list handed to the grouping is sorted and has the same extensions as often |
| SearchCommands.AdcHub.SendSearch | airdcpp/hub/AdcHub.cpp:1268-1280 | One command when active, two restricted ones when passive |
| SearchCommands.AdcHub.HandleSearchExtensions | airdcpp/hub/AdcHub.cpp:1147-1203 | What is sent and how the command goes on, for searches to the hub and to one user |
| SearchCommands.AdcHub.Search | airdcpp/hub/AdcHub.cpp:1253-1266 | All commands of one search |
| SearchCommands.OneFormEach | airdcpp/hub/AdcHub.cpp:1184-1280 | Whatever a user supports, at most one command arrives: the grouped form with SEGA, the plain one without |
| SearchArrivals.Arrives | airdcpp/hub/AdcHub.cpp:1147-1280 | For every list of extensions and every set of supported features: who gets one command and who none, that it begins with the other parameters, names groups exactly for users with SEGA, and asks for the extensions, none if more than two were given and no group was found, without those repeated in a group |
| SearchArrivals.ArrivesDirect | airdcpp/hub/AdcHub.cpp:1147-1203 | The same for a search to one user |
| SearchReceiver.ParseSearchExts | airdcpp/hub/AdcHub.cpp:1056-1065 | The groups of the mask, later ones first |
| SearchNumbers.NumberRead | airdcpp/hub/AdcHub.cpp:1056-1065 | An extension is read from a number exactly if the power of two of its group is in the binary number |
| SearchReceiver.SearchQuery.constructor | airdcpp/search/SearchQuery.cpp:237-277 | The extension lists read from the parameters |
| SearchReceiver.SearchQuery.HasExt | airdcpp/search/SearchQuery.cpp:288-302 | The first call applies the exclusions with the standard difference and compares the end of the name |
| SearchReceiver.AnswersByEnd | airdcpp/search/SearchQuery.cpp:288-302 | Without exclusions a name is accepted exactly if nothing is listed or it is some stem followed by a listed extension |
| SearchReceiver.AskAgain | airdcpp/search/SearchQuery.cpp:288-302 | A second call answers the same exactly if the exclusions leave something |
| SearchReceiver.CountParsed | airdcpp/hub/AdcHub.cpp:1056-1065 | Each extension of a selected group is in the parsed list once |
| SearchReceiver.BothFormsAskTheSame | airdcpp/hub/AdcHub.cpp:1184-1202 | Both forms stand for the extensions of the search |
| SearchReceiver.RightExactly | airdcpp/search/SearchQuery.cpp:288-295 | On unsorted lists the standard difference takes the exclusions away exactly if they are aligned: in list order, with only smaller elements in front of each |
| SearchAlignment.ExcludedList | airdcpp/hub/AdcHub.cpp:1103-1145 | The exclusions are, of the groups used and later groups first, the missing members and the repeated ones for each time too many |
| SearchDifference.OneTaken | airdcpp/search/SearchQuery.cpp:288-295 | In an unsorted list the standard difference takes an element away exactly if everything in front of it is smaller |
| SearchAlignment.HandledExactly | airdcpp/search/SearchQuery.cpp:288-295 | For any good table and any given list, repetitions included: taking away the exclusions leaves exactly what is given exactly if whatever stands in the way of a missing member is smaller and something larger stands in the way of each repeated one |
| SearchMisread.MisreadExactly | airdcpp/search/SearchQuery.cpp:237-302 | For every search: the receiver of the grouped form compares with the meant extensions exactly if whatever stands in the way of an extension missing from a group in use is smaller, and something larger stands in the way of each one listed again; in the way are members of later groups in use, behind the last one missing there |
| SearchMisread.AnswersExactly | airdcpp/search/SearchQuery.cpp:288-302 | For every search: the receivers of both forms answer the same for every file name exactly if each extension compared with ends in one that was meant, and the other way round |
| SearchMisread.AnswersRightExactly | airdcpp/search/SearchQuery.cpp:288-302 | They do so under the condition of MisreadExactly, and only then if no extension of the search or of a group in use ends in another one |
| SearchMisread.OneGroupExactly | airdcpp/search/SearchQuery.cpp:237-302 | With at most one group in use it does exactly if no member of that group is listed twice |
| SearchMisread.AudioAndVideoMisread | airdcpp/search/SearchQuery.cpp:288-295 | Whenever audio and video are in use, an audio extension is missing but not wmv, and the groups in use between them are complete, it does not |
| SearchMisread.TwoGroupsMisread | airdcpp/search/SearchQuery.cpp:288-295 | As with all audio and video extensions but the first of each |
| SearchMisread.MisreadExample | airdcpp/search/SearchQuery.cpp:288-295 | In particular for the two groups listed one after the other |
| SearchMisread.RepeatedIsLost | airdcpp/hub/AdcHub.cpp:1103-1145 | With an extension listed twice the grouping takes it away |
| SearchMisread.LostExample | airdcpp/hub/AdcHub.cpp:1103-1145 | In particular with the audio extensions followed by the first of them again |
| Connections.ConnectionManager.AllowNewMCN | airdcpp/connection/ConnectionManager.cpp:208-259 | The scan over all items gives the decision of the model, limits asked of the last item included |
| Connections.ConnectionManager.GetDownloadConnection | airdcpp/connection/ConnectionManager.cpp:183-206 | A new waiting item exactly if allowed |
| Connections.ConnectionManager.AttemptDownload | airdcpp/connection/ConnectionManager.cpp:413-436 | The change of kind before a connection attempt |
| Connections.ConnectionManager.AddDownloadConnection | airdcpp/connection/ConnectionManager.cpp:958-990 | The item becomes active, with several connections if supported |
| Connections.ConnectionManager.OnDownloadRunning | airdcpp/connection/ConnectionManager.cpp:476-513 | The item is marked and another one created if allowed |
| Connections.ConnectionManager.OnIdle | airdcpp/connection/ConnectionManager.cpp:1223-1254 | The mark goes and a waiting extra item is removed |
| Connections.ConnectionManager.FailDownload | airdcpp/connection/ConnectionManager.cpp:1185-1254 | The item waits again, an extra one goes, and a never used small slot may be followed by a normal item |
| ConnectionEffects.RequestEffect | airdcpp/connection/ConnectionManager.cpp:183-206 | A request adds one waiting item of its kind exactly if allowed |
| ConnectionEffects.AttemptEffect | airdcpp/connection/ConnectionManager.cpp:413-436 | When an item for small files is made one for any, or the other way round; nothing else changes |
| ConnectionEffects.ConnectEffect | airdcpp/connection/ConnectionManager.cpp:958-990 | The item with the token, or the first of the user, becomes active, and its kind and flag change with several connections; nothing else does |
| ConnectionEffects.RunEffect | airdcpp/connection/ConnectionManager.cpp:476-513 | The item is marked, and exactly when a normal item is added |
| ConnectionEffects.IdleEffect | airdcpp/connection/ConnectionManager.cpp:1223-1254 | The mark goes, and of the items that wait beside it exactly the first |
| ConnectionEffects.FailEffect | airdcpp/connection/ConnectionManager.cpp:1185-1254 | The item waits unmarked, the first item that waits beside it goes, and exactly when a normal item is added |
| ConnectionRuns.StepKeepsSound | airdcpp/connection/ConnectionManager.cpp:183-513 | Every event keeps the invariant |
| ConnectionRuns.TrimSound | airdcpp/connection/ConnectionManager.cpp:1234-1254 | After removing the extra item no other item of the user waits |
| ConnectionRuns.RunsKeepSound | airdcpp/connection/ConnectionManager.cpp:183-513 | So does every run |
| ConnectionRuns.OneWaitingItem | airdcpp/connection/ConnectionManager.cpp:183-513 | In every run with normal slots: at most one item of a user is not active, running items are active, users without support have one item, the others no more than the own limit |
| ConnectionQueue.AllowNewExactly | airdcpp/connection/ConnectionManager.cpp:208-259 | allowNewMCNUnsafe without its loop: all items of the user allow another one, and if there are any, the last item of the list allows it for the number of running ones |
| RemoteLimits.RemoteLimitExactly | airdcpp/connection/ConnectionManager.cpp:214-254 | A new item keeps within the limit an item of the user carries exactly if there is room, or an item of the user, the own limit or the limit carried by the last item forbids it |
| RemoteLimits.WithinExactly | airdcpp/connection/ConnectionManager.cpp:183-513 | In every run in which the user states a limit with each connection: the user never has more items exactly if, each time one more is wanted with all running, the own limit forbids it or the last item is of the same user or carries a limit as low |
| RemoteLimits.RemoteLimitIgnored | airdcpp/connection/ConnectionManager.cpp:214-254 | A run in which a user that states a limit of one gets a second item |
| LateCreation.LateCreationExactly | airdcpp/connection/ConnectionManager.cpp:476-513 | Whatever happens between the check and the creation: two items wait afterwards exactly if the last event that matters leaves one waiting, a failure or another creation and not a connection, an idle report or a removal |
| LateCreation.StepPending | airdcpp/connection/ConnectionManager.cpp:183-513 | What each event does to whether an item of the user waits |
| LateCreation.LateCreationRace | airdcpp/connection/ConnectionManager.cpp:476-513 | In every state in which the check passes, a request for a download in between leads to two waiting items |
| LateCreation.FirstDownloadAsks | airdcpp/connection/ConnectionManager.cpp:476-513 | Such a state is reached by a first download |
| SmallSlots.WaitingExactly | airdcpp/connection/ConnectionManager.cpp:183-513 | In every run, small slots or not: a user never has two items waiting for more than small files exactly if no new one is allowed while an item waits that was for small files and is for any now |
| SmallSlots.SmallSlotRun | airdcpp/connection/ConnectionManager.cpp:413-436 | A run in which that happens |
| SmallSlots.SmallExactly | airdcpp/connection/ConnectionManager.cpp:421-429 | In every run: a user never has two items for small files exactly if no small file is found for an item for any files while the user has one for small files |
| SmallSlots.TwoSmallRun | airdcpp/connection/ConnectionManager.cpp:421-429 | A run in which that happens |
| ListDifference.FilterList | airdcpp/filelist/DirectoryListingDirectory.cpp:217-229 | Filtering in place, subdirectories first, gives the filtered tree |
| ListDifference.GetHashList | airdcpp/filelist/DirectoryListingDirectory.cpp:231-237 | The hashes of all files below |
| ListDifference.ListDiff | airdcpp/filelist/DirectoryListing.cpp:421-442 | The list filtered by the hashes of the other |
| ListDifference.ExactlyTheRest | airdcpp/filelist/DirectoryListingDirectory.cpp:217-229 | For every size limit the files left are exactly those whose hash is not in the set and that are not small and alone, of their directory, in that; each in its place and order |
| ListDifference.NoEmptyDirectories | airdcpp/filelist/DirectoryListingDirectory.cpp:217-229 | Every subdirectory left has a file somewhere below it |
| ListDifference.FilterTwice | airdcpp/filelist/DirectoryListingDirectory.cpp:217-229 | Subtracting two lists one after the other is subtracting both at once, for every size limit |
| ListDifference.FilterIdempotent | airdcpp/filelist/DirectoryListingDirectory.cpp:217-229 | A second pass changes nothing |
| ListDifference.NothingLeftExactly | airdcpp/filelist/DirectoryListingDirectory.cpp:217-229 | For every size limit nothing is left exactly if no file is one of those |
| ListDifference.HashesExactly | airdcpp/filelist/DirectoryListingDirectory.cpp:231-237 | The hashes collected are those of the files below |
| ListDifference.SubtractedExactly | airdcpp/filelist/DirectoryListing.cpp:421-442 | A list minus one that has all its hashes is empty, under any size limit; without a limit it is empty only then |
| ListPaths.PathsAgree | airdcpp/filelist/DirectoryListingDirectory.cpp:299-307 | The path printed from the parents up is the one read from the root down |
| ListPaths.FoundHasPath | airdcpp/filelist/DirectoryListing.cpp:305-324 | Whatever lookup finds has the asked path, but for case |
| ListPaths.LookupExactly | airdcpp/filelist/DirectoryListing.cpp:305-324 | With valid names and different siblings, lookup finds a directory exactly if its printed path is the asked one, but for case |
| ListDocument.LoadsExactly | airdcpp/filelist/ListLoader.cpp:68-135 | A document for a new list is accepted exactly if all names are valid and siblings differ; then the list has just its files and directories, in order |
| ListDocument.WriteThenLoad | airdcpp/filelist/ListLoader.cpp:68-135 | A list written as a document and loaded is the same list |
| MergedLists.Merges | airdcpp/filelist/ListLoader.cpp:68-135 | An updating load of any document with valid names: all files are added, and each directory, old or new, gets all the content under its name, however often it is repeated |
| MergedLists.FailsExactly | airdcpp/filelist/ListLoader.cpp:40-52 | An updating load fails exactly for an invalid name |
| MergedLists.NothingToUpdate | airdcpp/filelist/ListLoader.cpp:99-135 | Where no name is there yet and none repeats, updating makes no difference |
| ListAttributes.OldUpdated | airdcpp/filelist/ListLoader.cpp:99-135 | After an updating load a subdirectory that was there is complete exactly if it was or the document gives it as not incomplete; its date is the last one given, its size the old one |
| ListAttributes.NewUpdated | airdcpp/filelist/ListLoader.cpp:88-135 | A new one has the attributes of the first element with its name, updated in the same way |
| ListAttributes.BaseUpdated | airdcpp/filelist/ListLoader.cpp:137-209 | After a partial load the base directory is complete and has the date of the document, and its subdirectories are updated in the same way |
| ListAttributes.NameRefused | airdcpp/filelist/ListLoader.cpp:40-52 | A file or directory is refused for its name exactly if that is empty, one or two dots, or has a slash |
| ListLoading.ListLoader.ValidateName | airdcpp/filelist/ListLoader.cpp:40-52 | The accepted names |
| ListLoading.ListLoader.LoadFileTag | airdcpp/filelist/ListLoader.cpp:68-86 | A file is added, skipped without size or hash, or refused for its name |
| ListLoading.ListLoader.LoadDirectory | airdcpp/filelist/ListLoader.cpp:99-135 | A directory is created, used again when updating, or refused; the cursor goes into it |
| ListLoading.ListLoader.LoadListing | airdcpp/filelist/ListLoader.cpp:137-161 | The base directory is checked and created |
| ListLoading.ListLoader.CreateBaseDirectory | airdcpp/filelist/DirectoryListing.cpp:215-231 | The loop over the path gives the tree with its directories and the place of the last one |
| ListLoading.ListLoader.StartTag | airdcpp/filelist/ListLoader.cpp:163-187 | Start tags, self-closing ones as start and end |
| ListLoading.ListLoader.EndTag | airdcpp/filelist/ListLoader.cpp:189-209 | End tags: up to the parent, or the end of the listing |
| ListLoading.ReadsDocument | airdcpp/filelist/ListLoader.cpp:163-209 | Reading the tags of a document does to the directory at the cursor what the document means, and brings the cursor back |
| PartialLists.ListRebuilt | airdcpp/filelist/ListLoader.cpp:163-209 | The tags of a well-named list, read into an empty one, rebuild it with the cursor at the root |
| PartialLists.RefusedExactly | airdcpp/filelist/ListLoader.cpp:68-135 | A whole-list document is refused exactly for an invalid or repeated name |
| PartialLists.FoundIsCreated | airdcpp/filelist/DirectoryListing.cpp:215-231 | A directory that lookup finds is the one createBaseDirectory goes to |
| PartialLists.BaseFoundExactly | airdcpp/filelist/ListLoader.cpp:137-161 | The directory just created is found, as the source asserts, exactly if its path has no empty parts |
| PartialLists.StartPartial | airdcpp/filelist/DirectoryListing.cpp:504-530 | Content that was loaded before is cleared first |
| PartialLists.PartialLoadFrame | airdcpp/filelist/DirectoryListing.cpp:504-545 | A partial load, also a failing one, changes only the base directory, what is below it and what was created on the way; a document about another directory is refused with the content already cleared |
| PartialContent.PartialLoadContent | airdcpp/filelist/DirectoryListing.cpp:504-545 | A partial load fails exactly for an invalid name; otherwise the base directory is complete and holds what was there, unless it was cleared, with the document merged into it |
| PartialContent.PartialRebuilt | airdcpp/filelist/DirectoryListing.cpp:504-545 | The written content of a directory, loaded into a new or complete base, is the content of the base |
| PartialContent.LoadedSubKept | airdcpp/filelist/ListLoader.cpp:99-135 | A subdirectory the document says no more about keeps its files and directories, and stays complete |
| PartialContent.RefusedHarmlessExactly | airdcpp/filelist/DirectoryListing.cpp:504-530 | A refused document leaves the list as it was exactly if the directory asked for is not in it, not complete, or empty already |
| PartialLists.AsideSame | airdcpp/filelist/DirectoryListing.cpp:504-545 | Directories that are neither on the way nor below are as they were |
| PartialLists.AncestorSame | airdcpp/filelist/DirectoryListing.cpp:504-545 | Directories on the way keep attributes and files |
| InfUpdates.AdcHub.AddParam | airdcpp/hub/AdcHub.cpp:1307-1322 | A field is recorded, and added to the command if its value changed |
| InfUpdates.AdcHub.InfoImpl | airdcpp/hub/AdcHub.cpp:1402-1452 | The command with the changed fields is sent if there are any |
| InfUpdates.AdcHub.OnConnected | airdcpp/hub/AdcHub.cpp:1516 | A new connection starts with nothing recorded as sent, the state the sessions below start from |
| InfUpdates.CommandSuffices | airdcpp/hub/AdcHub.cpp:1307-1322 | The changed fields do to a receiver that is up to date what all fields would do |
| InfUpdates.CommandExactly | airdcpp/hub/AdcHub.cpp:1307-1322 | The command has exactly the fields whose value is not what the receiver knows |
| InfUpdates.FieldsKnown | airdcpp/hub/AdcHub.cpp:1402-1452 | After it the receiver knows each field as it is |
| InfUpdates.SessionInStep | airdcpp/hub/AdcHub.cpp:1402-1452 | In every session in which no command is stopped the receiver knows what the sender has recorded |
| InfUpdates.StoppedExactly | airdcpp/hub/AdcHub.cpp:1448-1450 | A stopped command leaves them in step exactly if each field had the value that was sent last |
| InfUpdates.SessionExactly | airdcpp/hub/AdcHub.cpp:1402-1452 | In every session, commands stopped or not: the sender has recorded the present value of each field and the receiver knows the one it had when a change of it last got out |
| InfUpdates.InStepExactly | airdcpp/hub/AdcHub.cpp:1402-1452 | So they are in step exactly if these are the same for each field |
| InfUpdates.AgainDoesNotHelp | airdcpp/hub/AdcHub.cpp:1448-1450 | After a stopped command, sending the same values again sends nothing |

## Left out

- Sockets, TLS, UDP, XML parsing, file reading, the databases and the operating system: inputs are byte or tag
  sequences and parameters; a LevelDB database is a map whose `remove_if` walks a snapshot.
- Tiger hashing: the two hash functions of a tree are arbitrary functions.
- HashStore.LoadedIsGenuine: says nothing about records with a negative size, or whose sizes make the code read past
  the record or divide by zero; there the model stops with an outcome of its own.
- HashStore.Store.Optimize: the counters for the log, and compaction, are not modelled.
- MaintenanceRace.Run: what is shared and what is queued do not change during a run, and no database error ends it.
- HasherWorker.NeverStuck: wake-ups of the semaphore without a signal, the unlocked read of the shutdown flag, and
  pausing and suspending are not modelled.
- HashScheduling.RunsSound: a stop or shutdown in between is excluded, as `HasherWorker.StopCountsExactly` and
  `HasherWorker.SleepyStopLosesWakeUp` show why; the bounds with stops are in `HashScheduling.RunsBounded`. Hashers
  that a repeated id drops from the list while their thread goes on are not followed.
- NmdcEscape.ValidateMessage: messages are sequences of characters; encodings are not modelled.
- AutoSearchSchedule.AutoSearch.UpdateSearchTime: daylight saving time and the conversion of local to system time are
  not modelled; item limits and expiry of auto searches are left out as easier.
- Names: letters are folded as in ASCII; the multi-byte folding of the code is not modelled.
- AdlSearch.ADLSearchManager.MatchRecurse: pointers to directories are places in a tree value, which do not
  alias; directories stand in the order of creation where the code keeps a map ordered by name; the list being
  closed half-way and the queueing of matched files are not modelled.
- AdlTree: sizes are unbounded, so the product of a size limit and its unit does not overflow.
- SearchCommands.AdcHub.HandleSearchExtensions: extensions are taken to be in lower case, as the receiver reads them;
  the other parameters of a search are kept as they are; commands stopped by a hook count as sent.
- ConnectionRuns.OneWaitingItem: small slots are excluded, as `SmallSlots.WaitingExactly` shows why; check and creation
  are one step, as `LateCreation.LateCreationExactly` shows why; retry times, error counts and connection floods are
  not modelled, so an attempt may happen at any time.
- RemoteLimits.WithinExactly: small slots are excluded; the limit is a number without bound, where the code keeps the
  lowest byte of it.
- LateCreation.LateCreationExactly: small slots are excluded, and one creation comes late; that of a failed item for
  small files, which lets go of the lock as well, is one step with its check.
- SearchMisread.AnswersRightExactly: where one extension ends in another, the condition on the answers is that of
  `SearchMisread.AnswersExactly`, on the extensions compared with.
- Connections of private chats, and the NMDC and ADC handshakes.
- ListLoading.ListLoader.EndTag: the tags are balanced, as the XML reader sees to; load hooks, the count of loaded
  directories and content counts are not modelled.
- PartialLists.PartialLoadFrame: the own list, which is loaded from the share, is not modelled.
- ListDifference.FilterList: the size limit of the setting is passed in.
- InfUpdates.AdcHub.InfoImpl: where the values of the fields come from.
- ThrottleManager, MessageCache, favorites, connectivity, RSS, hub lists and private chat: they would add easier members.
