# ZigBee coordinator firmware: verified model

A Dafny model of the stateful parts of the firmware, with proofs of what they keep, undo and put on the line. Each component is a module of its own. A component has two layers where the firmware updates state in place: a `class` whose methods follow the C functions step by step, and functions on values that say what each of those methods does. Every class method is proved equal to its function; the theorems are about the functions, over every input, run and interruption.

`dafny verify dfyconfig.toml` checks everything.

## What is modelled

- **Binding table in NV** (`BindingEntries`, `BindingNv`, `BindingNvOutcome`, `BindingNvDevice`). The resize protocol: duplicate, delete, recreate, compact, write the header, delete the duplicate. Each NV operation may take effect, be refused, or be the point where the power is cut, by a fault script; a failed or interrupted `nwkCreateDuplicateNV` may leave any duplicate at all. With fresh headers reading 0, `SurvivesExactly` says of every table whether it survives every sequence of interrupted boots; that assumption is needed (`CrashSafeExactly`). The firmware's comment at BindingTable.c:964-968 takes it for granted; the repository's own NV driver creates an item without a buffer as erased flash (OSAL_Nv.c:1083-1119), whose header reads 0xFFFF. A save that is cut short can leave a header that counts too many records (`CutSave`), and such a table is never resized again (`OverCountedIsStuck`), though nothing of it is lost. The firmware runs on after a failed upgrade and may save its RAM table: `SavesBetweenBootsExactly` says of every run of boots and saves whether the old records stay recoverable. Saving and restoring is a second result: it gives back the same table, and a change of capacity gives the compaction of the records in use.
- **Binding table in RAM** (`BindingTable`, `BindingTableOutcome`). Adding, removing, finding, counting and the cluster lists. Keys stay distinct and every live record's address manager entry keeps its BINDING reference over every run of the operations.
- **Heap** (`Heap`). The byte image of the arena with its headers. A heap is an image whose chain of headers is exactly a list of blocks that tile the arena; the list is determined by the image (`ChainUnique`). Allocation and release are proved on the bytes. Back links are not repaired by the code: `CarveBackLinks` and `ReleaseBackLinks` say exactly when they stay true, and `FreeExactly` says of every heap and every live block whether releasing it is harmless. `StaleLinkOverwrites` and `StaleHeaderSkips` work this out for the two ways a stale link does harm, and `ReachStaleLink` and `ReachSkippedBlock` reach both from an initial heap with six calls.
- **Linked bind list** (`BindList`). Sources with destination lists, in heap nodes, standing for a relation.
- **Serial transmit** (`SendArena`, `LongBuffer`, `SerialSend`, `LongMessage`, `AttributeResponse`). The sixteen-block arena and its bitmap, the four slots, the long-message stream and its way to the line, and the attribute response that chooses between a short frame and a long one; both put the same framed bytes on the line while the size is below 0x8000.
- **Serial receive** (`SerialReceive`). The ring shared with the interrupt routine and the frame parser.
- **Inter-PAN codec** (`InterPan`), **endpoint registry and dispatch** (`Endpoints`), **beacon batching** (`BeaconBatch`).

Where the code does less than its purpose, the theorem gives the exact condition under which it does it:

| behaviour of the code | exact condition in |
|---|---|
| crash safety depends on what a fresh NV item reads as, on the header's count, and on the table being non-empty | `BindingNv.CrashSafeExactly`, `BindingNv.SurvivesExactly`, `BindingNv.CutSaveSurvives` |
| a leftover NV item that cannot be deleted keeps its length | `BindingNvOutcome.UpgradeLength` |
| the 16-bit size of a heap request wraps | `Heap.CarvedHoldsExactly`, `Heap.CarveTilesExactly` |
| back links go stale on split and merge | `Heap.CarveBackLinks`, `Heap.ReleaseBackLinks` |
| a release through a stale link may write into a live block or drop one off the chain | `Heap.FreeExactly`, `Heap.StaleLinkOverwrites`, `Heap.StaleHeaderSkips` |
| `bind` answers 1 when no source node can be allocated | `BindList.ReturnedByte` |
| `sendFree` always clears from block 0, with an 8-bit size | `SendArena.ClearUndoesGrant`, `SendArena.AllocThenFree`, `SerialSend.BlocksComeBack` |
| a grant may run past the arena's end | `SendArena.GrantInside` |
| a queued long buffer loses its last byte | `LongMessage.LongMessageSentExactly`, `LongMessage.PlainMessageSentExactly` |
| long buffers are rarely given back, so that the arena runs out | `SerialSend.LongBufferComesBack`, `SerialSend.LongMessagesFit` |
| a long message of 0x8000 bytes or more, sent byte by byte, is nothing but its header; chunk copies of it go out, or overrun the buffer | `LongBuffer.StreamIsInputs`, `LongBuffer.CopyIsPushAll`, `LongBuffer.WholeCopyFitsExactly` |
| a full ring looks empty | `SerialReceive.SoundExactly` |
| frames read by one call overwrite each other | `SerialReceive.EachDeliveredExactly`, `SerialReceive.KeptUntilHandedOver` |
| a save after a failed upgrade may replace the old records | `BindingNv.SavesBetweenBootsExactly`, `BindingNv.SaveOverNewTable` |
| the length of an inter-PAN frame has eight bits | `InterPan.AllocationHoldsExactly` |
| frames with unchecked header bits are indicated too | `InterPan.IndicatedIsRebuilt` |
| a beacon reported without buffer and memory is lost | `BeaconBatch.EveryBeaconOnce` |

## Model

| member | source | states |
|---|---|---|
| BindingNv.CrashSafeExactly | Components/stack/nwk/BindingTable.c:828-1008 | the tables that can survive (right size, or counting records and holding as many as a resize copies) all do, under every sequence of interrupted boots, if and only if a fresh item's header reads 0; surviving means that a boot that succeeds leaves exactly the first min(capacity, count) live records and no duplicate, and a boot without faults succeeds |
| BindingNv.SurvivesExactly | Components/stack/nwk/BindingTable.c:935-1008 | with fresh headers reading 0, any table at all survives every sequence of interrupted boots if and only if it has the right size, or its header counts records and there are min(count, capacity) live ones |
| BindingNv.SurvivesWhenFreshIsEmpty | Components/stack/nwk/BindingTable.c:935-1008 | the survival half for a table that is resized, for one sequence of boots |
| BindingNv.LosesWhenFreshIsNotEmpty | Components/stack/nwk/BindingTable.c:964-970 | the loss half: one record and a power cut right after the new item is created, whenever the fresh header does not read 0 |
| BindingNv.EmptyMayGain | Components/stack/nwk/BindingTable.c:971-1005 | an empty table of another size does not survive an interrupted duplication that leaves a record behind |
| BindingNv.OverCountedIsStuck | Components/stack/nwk/BindingTable.c:859-884 | a table of another size whose header counts records that are not there never gets through a resize: after any boots the next one fails, with or without faults, though its records stay recoverable |
| BindingNv.CutSave | Components/stack/nwk/BindingTable.c:1059-1087 | a save that is cut after i record writes leaves the old header over i new and the remaining old records |
| BindingNv.CutSaveSurvives | Components/stack/nwk/BindingTable.c:1059-1087 | the table such a save leaves gets through a later resize if and only if the old count, or the new capacity, is at most the number of records left |
| BindingNv.SavesBetweenBootsExactly | Components/stack/nwk/BindingTable.c:935-1087 | over any run of boots, interrupted in any way, and saves of a RAM table: the old records are recoverable at every point if and only if every save either counts no record, or finds no table item, while a duplicate holds them, or writes those very records |
| BindingNv.SaveOverNewTable | Components/stack/nwk/BindingTable.c:1059-1087 | once the new table item exists beside the duplicate, a save keeps the old records if and only if it counts none or holds just them |
| BindingNv.CountingSaveReplaces | Components/stack/nwk/BindingTable.c:935-1087 | a save that counts other records replaces the old ones for good: whatever boots follow, one that succeeds leaves the saved records |
| BindingNv.WriteFromAny | Components/stack/nwk/BindingTable.c:1059-1087 | a save over an item of any length writes the records that fit, then the count of all in use; without an item it writes nothing |
| BindingNv.UpgradeKeeps | Components/stack/nwk/BindingTable.c:935-1008 | one boot under any faults keeps the records recoverable, whatever the header counts; success means the protocol is over and, if there was anything to do, the records lie in the leading slots with just them counted; without faults it succeeds exactly when enough records are there or nothing is to be done |
| BindingNv.BootsKeep | Components/stack/nwk/BindingTable.c:935-1008 | the records stay recoverable over any number of boots |
| BindingNv.CopyBackupKeeps | Components/stack/nwk/BindingTable.c:828-917 | rebuilding the table from the duplicate keeps the records recoverable at every step, a header that counts anything counts just the records in the leading slots, and without faults it succeeds exactly when the duplicate holds the records it looks for |
| BindingNv.CopyKeeps | Components/stack/nwk/BindingTable.c:859-884 | the copy loop leaves duplicate and header alone, ends well only with the goal in the leading slots, and without faults ends well exactly when the duplicate holds enough records; otherwise reading past its end fails |
| BindingNv.ClosingKeeps | Components/stack/nwk/BindingTable.c:888-904 | writing the header and dropping the duplicate, each possibly failing, never loses the records |
| BindingNv.SaveThenRestore | Components/stack/nwk/BindingTable.c:1019-1087 | restoring what was saved gives the count of live records and each slot up to the last live one; the whole table comes back if and only if the slots behind it were blank |
| BindingNv.ResizeWithoutFaults | Components/stack/nwk/BindingTable.c:859-904 | a resize succeeds exactly when the table holds the records it looks for, and then has them, in order and cut at the capacity, in its leading slots |
| BindingNv.RestoreResized | Components/stack/nwk/BindingTable.c:1019-1048 | a table saved at another capacity is restored as the compaction of its live records cut at the new capacity, blank behind them |
| BindingNvOutcome.UpgradeLength | Components/stack/nwk/BindingTable.c:828-1008 | from any state and under any faults, an upgrade that succeeds leaves no duplicate and a table of the firmware's length, with one exact exception: a leftover item of another length without records whose deletion is refused, which the code ignores, keeps its length |
| BindingNvOutcome.RebuiltLength | Components/stack/nwk/BindingTable.c:828-917 | rebuilding from the duplicate leaves a table of the firmware's length unless a refused deletion leaves the old one |
| BindingNvOutcome.UpgradeSettles | Components/stack/nwk/BindingTable.c:935-1008 | a boot without faults that succeeds, from any state, leaves a table of the firmware's length, and every later boot, whatever its faults, changes nothing |
| BindingNvOutcome.RestoreExactly | Components/stack/nwk/BindingTable.c:1019-1048 | from any state: a failed upgrade leaves RAM alone and reports no record; else the header's count is reported and each slot is read until that many records lie before it |
| BindingNvOutcome.RestoreSettled | Components/stack/nwk/BindingTable.c:1019-1048 | a settled table is restored slot by slot, its records in use being exactly the table's |
| BindingNvOutcome.RestoreRecovered | Components/stack/nwk/BindingTable.c:1019-1048 | from every other state in which all records are recoverable, in the table or in the duplicate of a cut upgrade, a restore without faults gives exactly those records, blank slots behind them, and their number |
| BindingNvOutcome.RestoreAfterBoots | Components/stack/nwk/BindingTable.c:935-1048 | after any interrupted boots of any table that can be resized, a restore without faults gives its records: compacted and cut at the capacity, or slot by slot when the length was right |
| BindingNvDevice.NvDevice.BindCopyBackupToNewNV | Components/stack/nwk/BindingTable.c:828-917 | the NV state left and the status returned are those of `CopyBackup`, for every fault script, of which `CopyBackupKeeps` gives the records and `RebuiltLength` the length |
| BindingNvDevice.NvDevice.BindUpgradeTableInNV | Components/stack/nwk/BindingTable.c:935-1008 | the NV state left and the status returned are those of `Upgrade`, the boot of the crash safety theorems, whose length `UpgradeLength` gives |
| BindingNvDevice.NvDevice.BindRestoreFromNV | Components/stack/nwk/BindingTable.c:1019-1048 | NV state, RAM table and number of records are those of `Restore`, which `RestoreExactly` and `RestoreAfterBoots` describe |
| BindingNvDevice.NvDevice.BindWriteNV | Components/stack/nwk/BindingTable.c:1059-1087 | the NV state is that of `WriteFrom`, the saving half of the round trips; failed writes are ignored as in the code |
| BindingTable.AddMeaning | Components/stack/nwk/BindingTable.c:257-349 | a successful add leaves old clusters followed by the missing ones (or the cut list in a new record), a failed one something in between, no other record changes, and exactly when it fails |
| BindingTable.AddClustersMeaning | Components/stack/nwk/BindingTable.c:303-319 | adding to an existing record appends the ids it lacks, each once, cut at the list's width, and succeeds exactly when nothing is cut |
| BindingTable.AddKeeps | Components/stack/nwk/BindingTable.c:257-349 | an add keeps keys distinct and references held |
| BindingTable.IndexHeld | Components/stack/nwk/BindingTable.c:1251-1294 | resolving an address drops no reference, and the index it gives is held |
| BindingTableOutcome.AddGroup | Components/stack/nwk/BindingTable.c:1279-1281 | a record added for a group carries the group's id, group mode and endpoint 0, and leaves the address manager alone |
| BindingTableOutcome.AddKnown | Components/stack/nwk/BindingTable.c:257-349 | an address that resolves to an entry with a reference gets that very entry, whatever else the manager offers, and leaves the manager alone |
| BindingTableOutcome.AddUnknown | Components/stack/nwk/BindingTable.c:1251-1294 | one that does not gets the entry the manager finds, which then holds the reference and the address; without one nothing changes |
| BindingTableOutcome.AddNowhere | Components/stack/nwk/BindingTable.c:1251-1294 | an absent or broadcast destination adds nothing and changes nothing |
| BindingTableOutcome.AddSucceedsExactly | Components/stack/nwk/BindingTable.c:257-349 | an add fails only for want of room: it succeeds exactly when there is an empty slot, or the first record of its key can take the clusters |
| BindingTableOutcome.AddTwice | Components/stack/nwk/BindingTable.c:257-349 | two adds of one destination meet in one record, whatever the clusters and the manager's offer |
| BindingTableOutcome.GroupsApart | Components/stack/nwk/BindingTable.c:257-349 | records of two groups never meet, and the second add leaves the first as it was |
| BindingTableOutcome.ClearsExactly | Components/stack/nwk/BindingTable.c:739-768 | clearing an index takes exactly its reference away if it is valid and no address-mode slot names it |
| BindingTableOutcome.RemovesExactly | Components/stack/nwk/BindingTable.c:533-567 | removing a destination blanks exactly the slots bound to it and takes its reference away exactly when no address-mode slot is left that names it; for an address none is |
| BindingTableOutcome.RemovesNothing | Components/stack/nwk/BindingTable.c:533-567 | a destination that is not known removes nothing |
| BindingTableOutcome.RemoveUndoesAdd | Components/stack/nwk/BindingTable.c:257-567 | removing the destination just added takes its record out again |
| BindingTableOutcome.SourceReferences | Components/stack/nwk/BindingTable.c:582-599 | removing a source endpoint takes away exactly the references of valid indices that a removed slot held and no address-mode slot names any more |
| BindingTable.RemoveDevKeeps | Components/stack/nwk/BindingTable.c:533-567 | removing a destination keeps both invariants; what it removes is in `RemovesExactly` |
| BindingTable.DropSourceKeeps | Components/stack/nwk/BindingTable.c:582-599 | removing a source endpoint keeps both invariants |
| BindingTable.AddressClearKeeps | Components/stack/nwk/BindingTable.c:739-768 | clearing an index keeps every live reference held; what it takes away is in `ClearsExactly` |
| BindingTable.RunKeeps | Components/stack/nwk/BindingTable.c:257-599 | both invariants over every run of operations |
| BindingTable.RunFromInitial | Components/stack/nwk/BindingTable.c:141-143 | and so from the initialised table |
| BindingTable.MatchesMembers | Components/stack/nwk/BindingTable.c:703-727 | the enumeration has exactly the matching slots |
| BindingTable.MatchesIncrease | Components/stack/nwk/BindingTable.c:703-727 | in table order, each once |
| BindingTable.MatchesUpdate | Components/stack/nwk/BindingTable.c:670-689 | replacing one record changes a count by what that record gains or loses |
| BindingTable.RemoveClusterCounts | Components/stack/nwk/BindingTable.c:404-444 | removing a cluster lowers the count of its endpoint and cluster by one if the record held it, and no other count |
| BindingTable.CompactStep | Components/stack/nwk/BindingTable.c:421-436 | one step of the in-place compaction keeps: written part is the filtered part read so far, rest untouched |
| BindingTable.CompactDone | Components/stack/nwk/BindingTable.c:421-436 | at either exit of the loop the list is the stable filter of the old one |
| BindingTable.BindingTable.BindFindEmpty | Components/stack/nwk/BindingTable.c:170-184 | the first slot not in use, or none |
| BindingTable.BindingTable.BindIsClusterIDinList | Components/stack/nwk/BindingTable.c:376-392 | true if and only if the id is among the counted ones |
| BindingTable.BindingTable.BindAddClusterIdToList | Components/stack/nwk/BindingTable.c:456-466 | appends the id if there is room, else changes nothing |
| BindingTable.BindingTable.BindAddEntry | Components/stack/nwk/BindingTable.c:257-349 | table, address manager and returned record are those of `Add`, which `AddMeaning`, `AddGroup`, `AddKnown`, `AddUnknown` and `AddSucceedsExactly` describe |
| BindingTable.BindingTable.BindRemoveEntry | Components/stack/nwk/BindingTable.c:360-364 | exactly that slot becomes blank |
| BindingTable.BindingTable.BindAddressClear | Components/stack/nwk/BindingTable.c:739-768 | the references are those of `AddressClear`, which `ClearsExactly` describes |
| BindingTable.BindingTable.BindRemoveDev | Components/stack/nwk/BindingTable.c:533-567 | table and references are those of `RemoveDev`, which `RemovesExactly` and `RemovesNothing` describe |
| BindingTable.BindingTable.BindRemoveSrcDev | Components/stack/nwk/BindingTable.c:582-599 | exactly the records of that source endpoint (0xFF: all) become blank; the references are in `SourceReferences` |
| BindingTable.BindingTable.BindNumReflections | Components/stack/nwk/BindingTable.c:670-689 | the number of matching slots |
| BindingTable.BindingTable.BindFind | Components/stack/nwk/BindingTable.c:703-727 | the match after `skipping` others, and none exactly when the count is not larger |
| BindingTable.BindingTable.BindRemoveClusterIdFromList | Components/stack/nwk/BindingTable.c:404-444 | the in-place loop gives the stable filter and says whether an id is left |
| Heap.NeedWraps | Source/OSAL_Memory2.c:68-80 | the 16-bit need is the true one exactly when that fits 16 bits |
| Heap.CarvedHoldsExactly | Source/OSAL_Memory2.c:68-104 | the block carved for a request holds header, name, back cell and payload if and only if the true need fits 16 bits |
| Heap.CarveTilesExactly | Source/OSAL_Memory2.c:92-104 | carving keeps the tiling if and only if the need covers a header or the block is taken whole |
| Heap.NeedExactly | Source/OSAL_Memory2.c:68-80 | a request takes fourteen bytes besides its size, and a name two more than its length |
| Heap.FirstFitExactly | Source/OSAL_Memory2.c:85-95 | the block chosen is the first that is free and at least as long as needed, and there is none exactly when no block is |
| Heap.ChainUnique | Source/OSAL_Memory2.c:85-95 | the chain in memory determines the blocks |
| Heap.CarveKeeps | Source/OSAL_Memory2.c:92-104 | carving keeps the tiling and adds exactly one live extent, at the start of the free block chosen: all of it if at most a header is to spare, else just the need, with a free block behind |
| Heap.CarveCoalesces | Source/OSAL_Memory2.c:92-104 | carving leaves no two free blocks side by side if there were none |
| Heap.ReleaseKeeps | Source/OSAL_Memory2.c:148-155 | releasing keeps the tiling and removes exactly one live extent |
| Heap.ReleaseExtent | Source/OSAL_Memory2.c:148-155 | the block left reaches over the free block behind and, if the back link names it, the free block before |
| Heap.ReleaseCoalesces | Source/OSAL_Memory2.c:148-155 | from a heap without two free blocks side by side, a release leaves none exactly unless the block before is free and the back link misses it |
| Heap.CarveThenRelease | Source/OSAL_Memory2.c:66-158 | releasing what was just carved gives back the extents that were live |
| Heap.CarveBackLinks | Source/OSAL_Memory2.c:96-102 | true back links stay true exactly when nothing is split off or the last block is split |
| Heap.ReleaseBackLinks | Source/OSAL_Memory2.c:149-155 | they stay true exactly when nothing merges or the stretch ends the arena |
| Heap.FreeKeepsHeap | Source/OSAL_Memory2.c:139-158 | with a trusted back link the image is again a heap, of the old blocks with this one released and merged with the free neighbours it sees, and every other live block keeps every byte |
| Heap.FreeExactly | Source/OSAL_Memory2.c:139-158 | over every heap and every live block: releasing it leaves a heap that has lost that extent and no byte of another live block, if and only if its back link can be trusted or the word written at prev + 4 leaves every block as it was or still readable |
| Heap.FreeExactlyWhere | Source/OSAL_Memory2.c:139-158 | untrusted, it is enough to look at the one or two blocks that the two bytes at prev + 4 lie in |
| Heap.StaleLinkWrites | Source/OSAL_Memory2.c:149-155 | untrusted, whatever it points at, the release clears the block's flag and writes one word, the end of the freed stretch, at prev + 4 |
| Heap.StaleLinkOverwrites | Source/OSAL_Memory2.c:149-155 | for a link into another block's body: harmless if and only if that block is free or held that very word |
| Heap.StaleHeaderSkips | Source/OSAL_Memory2.c:149-155 | for a link to the header of an earlier free block: that block then reaches to the end of the freed stretch, harmless if and only if no block in between is in use |
| Heap.HeapExactly | Source/OSAL_Memory2.c:43-64 | an image is a heap with given live extents if and only if reading its headers from the start finds exactly those |
| Heap.ReachStaleLink | Source/OSAL_Memory2.c:66-158 | three allocations, two releases and one allocation reach a live block whose back link points into another live block's payload; releasing it would do harm |
| Heap.ReachSkippedBlock | Source/OSAL_Memory2.c:66-158 | six calls reach a live block that records an earlier free block with a live one in between; releasing it would drop that one off the chain |
| Heap.AllocKeepsHeap | Source/OSAL_Memory2.c:92-112 | an image with the carved headers written and nothing outside the block touched is again a heap |
| Heap.BodyKeepsHeap | Source/OSAL_Memory2.c:114-127 | filling in the block behind its header keeps the heap and every other block's bytes |
| Heap.TiledWalks | Source/OSAL_Memory2.c:43-64 | memCheck's walk accepts every tiled chain with back links below their headers |
| Heap.WalksExactly | Source/OSAL_Memory2.c:43-64 | the walk accepts exactly the images with a chain of headers that ascends, links back below itself and ends at the end of the arena |
| Heap.InitialHeap | Source/OSAL_Memory2.c:34-38 | initialisation gives one free block |
| Heap.Heap.OsalMemInit | Source/OSAL_Memory2.c:34-38 | from any image, the arena is one free block with no back link |
| Heap.Heap.MemCheck | Source/OSAL_Memory2.c:43-64 | accepts exactly the chains that ascend, link back below themselves and end at the arena's end |
| Heap.Heap.FindFree | Source/OSAL_Memory2.c:85-95 | the walk ends at the first free block that is large enough, or at the arena's end |
| Heap.Heap.OsalMemAllocDbg | Source/OSAL_Memory2.c:66-132 | NULL exactly when no free block is large enough for the 16-bit need, and then nothing changed; else the first fit is carved, the payload lies in it and is filled, the cell before it holds the block's start, name, line and id are stored, no other block loses a byte |
| Heap.Heap.OsalMemFree | Source/OSAL_Memory2.c:139-158 | for any live block memory is afterwards the one `FreeExactly` speaks of; with a trusted back link the blocks are the old ones with this one released and merged and every other live block keeps its bytes; with any link that does no harm the heap has lost just that extent |
| BindList.BindRefinesRelation | Components/stack/nwk/bindTable2.c:52-112 | keys and destinations stay distinct; the relation gains exactly the pair, if and only if there was room; nothing changes if and only if it was bound or there was none |
| BindList.ReturnedByte | Components/stack/nwk/bindTable2.c:94-112 | 1 exactly when the pair is bound afterwards or no source node could be allocated |
| BindList.RunBindsRequests | Components/stack/nwk/bindTable2.c:52-112 | a run with room binds exactly the old pairs and the requested ones, whatever the order and repetition |
| BindList.BindTable.InitBindingTable | Components/stack/nwk/bindTable2.c:48-50 | the empty list |
| BindList.BindTable.FindSourceNode | Components/stack/nwk/bindTable2.c:114-123 | the node of the row with that key, or NULL |
| BindList.BindTable.CreateSrc | Components/stack/nwk/bindTable2.c:94-112 | the linked lists stand for the bind of a new key, the byte returned included; the list stays acyclic with each node once |
| BindList.BindTable.CreateDestIfNotFind | Components/stack/nwk/bindTable2.c:64-81 | the linked lists stand for the bind of an existing key: a destination found changes nothing, a new one goes to the front of that key's list only |
| BindList.BindTable.BindEntry | Components/stack/nwk/bindTable2.c:52-62 | for any request the linked lists stand for the bind whose relation `BindRefinesRelation` describes |
| SendArena.GrantInside | Source/SerialSend/SerialSend.c:173-184 | a granted run lies inside the arena exactly when some free run does |
| SendArena.GrantMayOverrun | Source/SerialSend/SerialSend.c:173-184 | with block 0 taken, sixteen blocks are granted from block 1 |
| SendArena.ClearUndoesGrant | Source/SerialSend/SerialSend.c:216-225 | clearing from block 0 undoes a grant exactly when it was granted from block 0 |
| SendArena.AllocThenFree | Source/SerialSend/SerialSend.c:161-229 | from an empty map, freeing with the 8-bit size restores it exactly when header and payload take at most 255 bytes |
| SendArena.BlocksCoverExactly | Source/SerialSend/SerialSend.c:166-168 | the blocks counted cover the size with less than one to spare, exactly up to 0xFF0 bytes |
| SendArena.Arena.FirstWindow | Source/SerialSend/SerialSend.c:172-179 | the shift loop finds the least index whose window is free |
| SendArena.Arena.MaskOf | Source/SerialSend/SerialSend.c:169-171 | the mask loop sets the low n bits |
| SendArena.Arena.InternalAlloc | Source/SerialSend/SerialSend.c:161-185 | the least free window is granted and exactly its bits set; none changes nothing |
| SendArena.Arena.SendAlloc | Source/SerialSend/SerialSend.c:187-199 | the least free window is granted; the frame header lies at its start and no other byte is written |
| SendArena.Arena.SendFree | Source/SerialSend/SerialSend.c:200-229 | clears from block 0 if the buffer starts with a frame header, else does nothing |
| LongBuffer.StreamIsInputs | Source/SerialSend/SerialSend.c:364-455 | for every interleaving of calls, direct bytes, then handed-over and buffered ones are the inputs cut at the declared size, those sent directly are all but the last 120 of the message, and never more than 120 are gathered, if and only if the size is below 0x8000 |
| LongBuffer.CopyIsPushAll | Source/SerialSend/SerialSend.c:385-414 | copying a chunk is sending its bytes one by one and flushing at the declared size, if and only if the count of bytes to come is not negative or the chunk is empty |
| LongBuffer.CopyWhenNegative | Source/SerialSend/SerialSend.c:385-414 | with a negative count a copy gathers all its bytes and hands them over at once, except where the 16-bit subtraction wraps |
| LongBuffer.WholeCopyFitsExactly | Source/SerialSend/SerialSend.c:385-414 | one copy of a whole message takes all of it for every size, and keeps to the 120-byte buffer if and only if the size is below 0x8078 |
| LongBuffer.NegativeRun | Source/SerialSend/SerialSend.c:385-455 | while the count reads as negative, single bytes vanish and chunks of up to 120 bytes are handed over in order, over any run |
| LongBuffer.RunTracks | Source/SerialSend/SerialSend.c:385-455 | the tracking invariant over every run of stream operations, from any state that has it |
| LongBuffer.FlushTracks | Source/SerialSend/SerialSend.c:433-455 | a flush keeps the stream on track, and a second one changes nothing |
| LongBuffer.WholeInputExactly | Source/SerialSend/SerialSend.c:364-427 | sent byte by byte, a message of the declared size goes out whole exactly when the size is below 0x8000 |
| LongMessage.LongMessageSentExactly | Source/SerialSend/SerialSend.c:308-455 | init, any calls that find a slot when they hand bytes over (chunk copies that complete the message and explicit sends included), the final send and the next send loop put the message on the line whole and in order, if and only if nothing was handed over, or one piece was and the DMA was idle; a single piece that waits loses its last byte, and the loop's line has it between those of the slots before and after |
| LongMessage.PlainMessageSentExactly | Source/SerialSend/MgmtLqiResponseMessage.c:49-51 | with no explicit send but the last and a slot free at the start, any bytes, words and chunks come out whole if and only if nothing was handed over or the DMA was idle, and otherwise without the last byte |
| LongMessage.HandsOverOnce | Source/SerialSend/SerialSend.c:410-455 | such a message hands over at most one piece: a copy that completes it flushes it and the last call finds nothing left |
| LongMessage.StepsKeep | Source/SerialSend/SerialSend.c:385-455 | over any calls: the bytes sent directly or handed over are on the line or recorded in waiting slots, and every slot taken waits but the first, if the DMA was idle |
| SerialSend.BlocksComeBack | Source/SerialSend/SerialSend.c:161-229 | freeing a slot gives back exactly the run it was granted, from any map, if and only if its buffer starts with a frame header, the run starts at block 0 and the 8-bit size covers the run and no block in use |
| SerialSend.LongBufferComesBack | Source/SerialSend/SerialSend.c:200-229 | a long buffer's blocks come back if and only if it lies at block 0, begins like a frame, and its size fills eight blocks |
| SerialSend.LongMessagesFit | Source/SerialSend/SerialSend.c:161-229 | after any run of long messages, each freed once sent, there is a run for another one if and only if fewer than two of them left blocks behind, and a run found lies in the arena |
| SerialSend.OneLongFrees | Source/SerialSend/SerialSend.c:200-229 | one step of that run is what freeing the slot does, for any buffer contents |
| SerialSend.FreedExactly | Source/SerialSend/SerialSend.c:308-336 | the send loop frees exactly the blocks that, counted from block 0, the 8-bit size of a finished slot covers whose buffer begins like a frame |
| SerialSend.LoopStatus | Source/SerialSend/SerialSend.c:308-349 | after the loop a slot is unused if it was or was to be freed, and with the DMA if it was or waited |
| SerialSend.SerialPort.GetFreeSendBuffer | Source/SerialSend/SerialSend.c:231-245 | the first unused slot, or none |
| SerialSend.SerialPort.GetSendBuffer | Source/SerialSend/SerialSend.c:264-283 | takes the first unused slot, grants the least free run and writes the header; with no slot free it does what the send loop does |
| SerialSend.SerialPort.Send | Source/SerialSend/SerialSend.c:287-305 | completes the header with the code; the frame goes out at once if no slot is with the DMA, else waits |
| SerialSend.SerialPort.SerialSendLoop | Source/SerialSend/SerialSend.c:308-349 | finished slots are freed in order and every waiting slot's bytes are sent, in slot order |
| SerialSend.SerialPort.InitLongBuffer | Source/SerialSend/SerialSend.c:364-383 | grants eight blocks, puts the frame header on the line and starts an empty stream |
| SerialSend.SerialPort.CpyIntoLongBuffer | Source/SerialSend/SerialSend.c:385-414 | for a chunk that does not overrun the buffer, any count of bytes to come included, the stream afterwards is that of `Copy`, which `CopyIsPushAll` and `CopyWhenNegative` describe; the line gains the direct bytes, then those handed over if the DMA is idle; the first unused slot takes what is handed over and no other slot changes |
| SerialSend.SerialPort.LongBufferSendUInt8 | Source/SerialSend/SerialSend.c:415-427 | one byte of the stream |
| SerialSend.SerialPort.LongBufferSendUInt16 | Source/SerialSend/SerialSend.c:428-431 | two bytes, low one first |
| SerialSend.SerialPort.LongBufferSend | Source/SerialSend/SerialSend.c:433-455 | the gathered bytes are handed over once, to the first unused slot, sent at once if the DMA is idle and queued otherwise |
| AttributeResponse.SizePass | Source/SerialSend/serialSendAttributeResponseMsg.c:27-34 | the size is one more than the bytes the write passes emit, modulo 2^16 |
| AttributeResponse.SumIsLength | Source/SerialSend/serialSendAttributeResponseMsg.c:28-34 | the summed attribute sizes are the length of the attribute bytes |
| AttributeResponse.PayloadReadsBack | Source/SerialSend/serialSendAttributeResponseMsg.c:38-80 | the payload reads back as the address, endpoint, cluster, count and every attribute, values with type and length only on success |
| AttributeResponse.AttrsReadBack | Source/SerialSend/serialSendAttributeResponseMsg.c:46-61 | the attribute bytes read back as the attributes, one by one |
| AttributeResponse.WriteShort | Source/SerialSend/serialSendAttributeResponseMsg.c:38-61 | the short pass writes exactly the payload and nothing else |
| AttributeResponse.WriteLong | Source/SerialSend/serialSendAttributeResponseMsg.c:65-80 | the long pass pushes exactly the payload |
| AttributeResponse.LongOutcome | Source/SerialSend/serialSendAttributeResponseMsg.c:63-81 | a stream of the declared size ends with the whole payload sent or gathered, or with nothing at all from 0x8000 on |
| AttributeResponse.SerialSendAttributeResponseMsg | Source/SerialSend/serialSendAttributeResponseMsg.c:17-84 | with the DMA idle and a slot and run free, both branches put the same frame on the line: header, size, code, payload |
| SerialReceive.FrameParsed | Source/SerialReceive/SerialReceive.c:55-98 | a frame behind any junk and rejected starts parses to its size and payload, returns to Header1, sets ready and counts the junk modulo 2^16 |
| SerialReceive.PartParsed | Source/SerialReceive/SerialReceive.c:55-98 | a proper prefix of a frame leaves ready alone and has stored exactly the first bytes of the content |
| SerialReceive.OneFrameAnySplit | Source/SerialReceive/SerialReceive.c:48-106 | for every split of a frame over loop calls, exactly one event is delivered and it is that frame |
| SerialReceive.TwoFramesOneCall | Source/SerialReceive/SerialReceive.c:48-106 | two frames in one call give one event, the second |
| SerialReceive.KeptUntilHandedOver | Source/SerialReceive/SerialReceive.c:48-106 | whatever a call reads after a frame, the frame is handed over intact if and only if at each of its places the last byte stored later, if any, has the same value |
| SerialReceive.EachDeliveredExactly | Source/SerialReceive/SerialReceive.c:48-106 | for any frames, the start of another, and any split into calls: every frame is handed over once, in order and intact, if and only if some call ends between each frame's last byte and the next frame's first byte that overwrites it |
| SerialReceive.IntactWithinRoom | Source/SerialReceive/SerialReceive.c:74-98 | part of the next frame leaves a frame intact if and only if it stops before the first stored byte that differs |
| SerialReceive.EventsBounded | Source/SerialReceive/SerialReceive.c:101-105 | over any stream and calls there are never more events than completed frames |
| SerialReceive.SizeZeroTakesOneByte | Source/SerialReceive/SerialReceive.c:85-94 | a frame of size 0 consumes one more byte before ready and stores nothing but its size |
| SerialReceive.RingIsFifo | Source/SerialReceive/SerialReceive.c:48-54 | while unread bytes stay at or below 23: produced bytes are consumed ones followed by the ring's contents, pointers inside, counter exact |
| SerialReceive.SoundExactly | Source/SerialReceive/SerialReceive.c:108-122 | at every point of a run what was unread and produced is what was consumed and what the pointers show, if and only if at most 23 bytes are ever unread |
| SerialReceive.IsrOverflows | Source/SerialReceive/SerialReceive.c:112-118 | the 24th unread byte makes the ring look empty |
| SerialReceive.Receiver.Usart0RXIsr | Source/SerialReceive/SerialReceive.c:108-122 | one byte into the ring, the high-water mark kept, parser untouched |
| SerialReceive.Receiver.AddErrorData | Source/SerialReceive/SerialReceive.c:124-130 | counts the error and logs the byte within the log |
| SerialReceive.Receiver.AddSizeData | Source/SerialReceive/SerialReceive.c:132-137 | logs the size within the log |
| SerialReceive.Receiver.Accept | Source/SerialReceive/SerialReceive.c:55-98 | one parser step, never writing past rxData; sizes and counted junk go to their logs |
| SerialReceive.Receiver.Turn | Source/SerialReceive/SerialReceive.c:49-98 | takes the oldest byte and parses it |
| SerialReceive.Receiver.SerialReceiveLoop | Source/SerialReceive/SerialReceive.c:48-106 | with bytes arriving between its turns, a call consumes what was in the ring and what arrived, in order, until the ring is empty, and delivers the event of exactly those bytes |
| InterPan.RoundTrip | Components/stack/nwk/stub_aps.c:216-428 | every frame built is claimed, and is indicated with the mode, group, cluster, profile and payload it was built from exactly when the protocol version fits four bits |
| InterPan.RoundTripFields | Components/stack/nwk/stub_aps.c:216-428 | field by field: mode, broadcast flag, group, cluster, profile and payload of the request |
| InterPan.FrameLayout | Components/stack/nwk/stub_aps.c:376-428 | where every field of a frame lies, by delivery mode |
| InterPan.UnsupportedBits | Components/stack/nwk/stub_aps.c:309-319 | a request is not supported exactly when bit 0, 2 or 3 of its options is set |
| InterPan.UncheckedBitsIgnored | Components/stack/nwk/stub_aps.c:838-887 | with any of the unchecked bits set, a frame is claimed and indicated as before |
| InterPan.ClaimsExactly | Components/stack/nwk/stub_aps.c:639-693 | a frame is claimed exactly when both frame types are 3, and every indicated frame is |
| InterPan.AllocationHoldsExactly | Components/stack/nwk/stub_aps.c:729-749 | the buffer allocated holds the frame if and only if header and payload fit its 8-bit length, as they do within the MTU |
| InterPan.IndicatedIsRebuilt | Components/stack/nwk/stub_aps.c:838-887 | an indicated frame is the one its fields build exactly when the unchecked control bits are zero |
| InterPan.MtuIsTight | Components/stack/nwk/stub_aps.c:796-811 | a payload length fits a MAC frame in every mode if and only if it is within the MTU |
| InterPan.ControlBits | Components/stack/nwk/stub_aps.c:376-391 | the control fields built pass the checks exactly for a version below 16 and any mode but indirect |
| InterPan.StubNwkBuildMsg | Components/stack/nwk/stub_aps.c:376-391 | writes the two control bytes only |
| InterPan.StubApsBuildMsg | Components/stack/nwk/stub_aps.c:405-428 | writes the APS header followed by the payload |
| InterPan.InterpDataReq | Components/stack/nwk/stub_aps.c:710-784 | when a request is sent, with which frame, address, PAN, handle and acknowledgement, and which status is returned when not |
| InterPan.StubApsParseMsg | Components/stack/nwk/stub_aps.c:248-290 | reads exactly the fields the round trip speaks of |
| InterPan.InterpDataIndication | Components/stack/nwk/stub_aps.c:838-901 | indicates exactly the frames that pass every check |
| Endpoints.RegisterKeeps | Components/stack/af/AF.c:172-180 | endpoints stay distinct; success exactly for a new endpoint with memory, which is then the only addition |
| Endpoints.DeleteKeeps | Components/stack/af/AF.c:193-237 | endpoints stay distinct; success exactly for a registered one, which is then the only removal |
| Endpoints.DeleteUndoesRegister | Components/stack/af/AF.c:140-237 | deleting what was just registered gives back the list, order included |
| Endpoints.RunKeepsDistinct | Components/stack/af/AF.c:140-237 | endpoints stay distinct over every run |
| Endpoints.TargetsMeaning | Components/stack/af/AF.c:359-441 | a broadcast is delivered exactly once to each endpoint that accepts the profile, a unicast at most once and only to its endpoint |
| Endpoints.DeliveredByProfile | Components/stack/af/AF.c:387-407 | for every entry and frame: it is delivered exactly when it is broadcast or names the endpoint, and its profile is the entry's own (its callback's, else its simple descriptor's, else 0xFFFE), or 0 at endpoint 0, or 0xFFFF elsewhere |
| Endpoints.DeliveredToRegistered | Components/stack/af/AF.c:359-441 | nobody but registered endpoints receives anything |
| Endpoints.DeliveredInOrder | Components/stack/af/AF.c:387-439 | broadcast deliveries follow the order of the list |
| Endpoints.WildcardReach | Components/stack/af/AF.c:359-441 | a wildcard broadcast reaches exactly the registered endpoints, the ZDO's only under its own wildcard profile; a ZDO frame reaches the ZDO exactly when it is registered |
| Endpoints.DeleteStopsDelivery | Components/stack/af/AF.c:193-441 | deleting an endpoint stops its deliveries and changes no other, for every frame |
| Endpoints.RegisterStartsDelivery | Components/stack/af/AF.c:172-441 | registering an endpoint starts deliveries of the frames its entry accepts, as `DeliveredByProfile` says, and changes no other |
| Endpoints.Registry.AfFindEndPointDescList | Components/stack/af/AF.c:824-837 | the first node with that endpoint, or NULL |
| Endpoints.Registry.AfRegisterExtended | Components/stack/af/AF.c:140-157 | a new node at the head, if there is memory |
| Endpoints.Registry.AfRegister | Components/stack/af/AF.c:172-180 | a duplicate endpoint is refused, else the entry goes to the head or memory fails, as `RegisterKeeps` describes |
| Endpoints.Registry.AfDelete | Components/stack/af/AF.c:193-237 | exactly the first entry with the endpoint is unlinked, the others keep their order; the status says empty list, not found or deleted |
| Endpoints.Registry.AfIncomingData | Components/stack/af/AF.c:359-441 | the deliveries are the targets in list order, which `DeliveredByProfile` and `DeliveredInOrder` describe, each shown its own endpoint, and the frame's destination is put back |
| BeaconBatch.EveryBeaconOnce | Components/mt/MT_ZDO.c:1944-2037 | over any run ended by a confirm, the packets hold exactly once and in order the beacons that found the buffer or memory for it, which are all of them if and only if none came while both were missing; each packet's count byte is its number of records |
| BeaconBatch.RunSees | Components/mt/MT_ZDO.c:1971-2037 | packets sent and buffer together hold the beacons a run could keep, from any state |
| BeaconBatch.HeardAll | Components/mt/MT_ZDO.c:1979-1989 | all reported beacons are kept if and only if none was reported with neither a buffer nor memory |
| BeaconBatch.NotifySees | Components/mt/MT_ZDO.c:1971-2021 | a beacon is the next one seen, and is lost exactly when the buffer is missing and cannot be allocated |
| BeaconBatch.FinishSees | Components/mt/MT_ZDO.c:2022-2037 | the confirm loses and repeats nothing |
| BeaconBatch.PacketSound | Components/mt/MT_ZDO.c:2013-2020 | a packet of the beacons gathered is sound and reads back as them |
| BeaconBatch.AllButLastFull | Components/mt/MT_ZDO.c:2012-2037 | over a discovery all packets but the last hold as many records as fit, and none is empty |
| BeaconBatch.PacketLayout | Components/mt/MT_ZDO.c:1992-2008 | where every field of every record of a packet lies |
| BeaconBatch.DecodeOfBytes | Components/mt/MT_ZDO.c:1993-2008 | a record reads back as its beacon |
| BeaconBatch.DecodeOfRecords | Components/mt/MT_ZDO.c:1993-2008 | records read back in order |
| BeaconBatch.Batcher.Append | Components/mt/MT_ZDO.c:1992-2010 | the record goes behind those in the buffer, inside the pack length, and the count byte counts it |
| BeaconBatch.Batcher.Notified | Components/mt/MT_ZDO.c:1979-2021 | the buffer holds the packet of the beacons gathered, and a packet goes out exactly when no further record fits |
| BeaconBatch.Batcher.Finished | Components/mt/MT_ZDO.c:2022-2037 | what waits goes out as a packet, if anything does, and the buffer is freed |

## Left out

- BindingNv.CrashSafeExactly: NV operations are atomic and item lengths are counted in records plus a header, so it covers tables whose record size is the same in the old and the new firmware; recovery from a power cut inside one operation is the driver's.
- BindingNv.CopyKeeps: the loop index is unbounded, so the 8-bit index of an old table of more than 256 records is not modelled.
- `nwkCreateDuplicateNV` and the driver's `osal_nv_*` are contracts; a read past the end of an item fails in the contract, as the copy loop's termination expects, although the repository's driver does not check the range.
- BindInitNV, BindSetDefaultNV, bindUpdateAddr, bindAddrMgrLocalLoad, bindFindExisting and bindNumBoundTo: the first two and the last two only add easy members, bindUpdateAddr does not keep keys distinct.
- The address manager is modelled by its BINDING references alone; its tables and other users are not.
- BindingTable.BindingTable.BindFind: for endpoint 0xFF the code would read blank slots' lists past their end, so the endpoint is required to differ.
- BindingTable.BindingTable.BindNumReflections: requires an endpoint other than 0xFF, for the same reason.
- Heap.Heap.OsalMemAllocDbg: a request whose need exceeds 16 bits is covered only when no block fits the wrapped need; when one does the code writes past it, as `CarvedHoldsExactly` says. Names are taken as the string that is stored, its terminator included.
- Heap.Heap.OsalMemFree: with a back link that does harm only the bytes are stated, since what is left is not a heap of the remaining blocks.
- Critical sections, heap statistics and name listing (OSAL_Memory2.c:161-240); the heap is eight-byte headers with two-byte pointers in an image of at most 0xFFF0 bytes.
- The linked bind list's and the registry's nodes are Dafny objects; that a freed node's memory may be reused is the heap's concern. The rest of bindTable2.c are stubs.
- LongMessage.LongMessageSentExactly: declared sizes below 0x8000; each call that hands bytes over must find a slot, since the code writes through NULL otherwise; the DMA does not finish and no other message is sent between the calls. With more than one piece handed over it says that the message does not come out whole, not which bytes a queued slot sends after its buffer is filled again.
- BindingNv.SavesBetweenBootsExactly: saves without faults; a save that is cut is in `CutSaveSurvives`.
- SerialSend.SerialPort.CpyIntoLongBuffer: chunks that overrun the 120-byte buffer, which only a negative count allows, are left to `WholeCopyFitsExactly` and `CopyWhenNegative`; the 16-bit comparison is that of the 8051 target, where int has 16 bits.
- SerialSend.SerialPort.SerialSendLoop: private slots, whose buffers lie outside the arena, are not modelled.
- SerialSend.SerialPort.GetSendBuffer: requires a run when a slot is free, since the code writes through NULL otherwise; the same holds for InitLongBuffer, and for a slot in LongBufferSend and CpyIntoLongBuffer.
- AttributeResponse.SerialSendAttributeResponseMsg: requires a free slot and an idle DMA, so the busy wait for a slot and a queued transfer are not part of it; a payload must fit the 16-bit size.
- Assertion handlers, allocation counters, UART busy waits and the DMA's completion interrupt; the DMA is "length bytes from the source are sent", and that only one transfer runs at a time is not claimed.
- SerialReceive.Receiver.SerialReceiveLoop: each turn of the loop and each interrupt is one atomic step, the 16-bit pointers are not torn by the interrupt, and arrivals are stated while at most 23 bytes are unread; `SoundExactly` covers runs beyond that.
- InterPan.RoundTrip: header and payload must fit the 8-bit length, beyond which the frame overruns its buffer (`AllocationHoldsExactly`); the receive side requires the header fields to be there, which the code does not check. Channel changes, the notification of the application and signal fields are left out.
- Endpoints.TargetsMeaning: unicast and broadcast only; group delivery, the message built and AF_DataRequest depend on tables that are not in the repository. afRegisterExtended called alone does not look for duplicates.
- BeaconBatch.EveryBeaconOnce: the pack length is any from 22 to 255 (MT_UART_TX_BUFF_MAX is not part of this model).
- The other MT message handlers, ZDiags, the NIB, AddrManager.c, DeviceManager.c and the hardware registers.
