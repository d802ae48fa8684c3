# A verified model of a small relational storage engine

The engine stores tables in page files, keeps pages in a buffer pool, packs fixed-size records into
slotted pages, encodes rows by schema, compiles filters, keeps sorted index files as text, and answers
INSERT, SELECT, UPDATE and DELETE requests. Each layer has a simple meaning, and this project proves that
the layer's mechanism keeps to it; the layers are then put together through their contracts.

| layer | meaning | mechanism | files |
|---|---|---|---|
| page file | map of used pages, LIFO free list | free list threaded through page headers, one-page write-back cache, header written late | PageStore, PageFile |
| buffer pool | what a reader of each page sees | frames, free stack, page table, pin counts, dirty flags, an intrusive doubly linked LRU list | PoolState, PoolInvariant, PoolSteps, PoolRuns, PoolDiscipline, PoolExact, PoolRecency, BufferPool, PoolUse |
| record file | map from Rid to bytes, ordered scan | bitmap and counter per page, chain of pages with space | RecordLayout, RecordStore, RecordRuns, RecordFile, RecordReplay, RecordScan, Durability |
| rows and filters | rows of values, expressions on rows | fixed offsets, byte comparisons | RowCodec, Predicates, ExprCompiler |
| table | rows under Rids, snapshot UPDATE and DELETE | scan, then record by record | TableOps, TableRows, Table, TableScan |
| text files | catalogs and sorted index entries | tab-separated lines | Text, IndexFile, CatalogText |
| database and queries | tables, current indexes, project after limit after sort after filter | rebuild after each write, index lookup when possible | IndexPath, DbState, DbRuns, DbRows, DuplicateRun, Database, QueryPlan, OrderBy, SelectPlan, Engine, EngineRuns |

Parts that the program changes in place (page file, buffer pool, record file, scan, table, database, query
engine) are classes; their methods are proved equal to steps of a specification on values (`PageStore`,
`PoolSteps`, `RecordStores`, `TableOps`, `DbStates`), and the laws are proved about all runs of those
steps. What a request means for the rows that a reader finds is said in terms of decoded rows and plain
comparisons alone (`TableRows`, `DbRows`, `ExprCompiler.HoldsOn`, `OrderBy.ComesFirst`). Strings that rows hold are byte sequences; Float32 values are 32-bit patterns in the total order of
section 5.10 of IEEE 754-2008. Concurrency is modelled by steps: each call under the pool's mutex, each
write through a guard and each guard drop is one step, in any interleaving.

## What the code does not meet, and exactly when it does

- A write through a guard after `force_file` is not marked dirty: readers see it until the frame is reused, and
  then the old bytes again, in a pool of any size (`PoolExact.ForcedWriteIsLost`; `PoolDiscipline.LosingRunLoses` is
  a whole run from a new pool). Every run in which no guard writes to a page forced since a write guard on it was
  last handed out is transparent (`PoolDiscipline.TransparentRun`). After such a run, one more write leaves
  everything that can follow transparent if and only if its page was not so forced or the bytes are those a reader
  sees already (`PoolExact.WriteExact`): a pool is transparent exactly if each clean frame equals its stored page
  (`PoolExact.CoherentExact`), and a frame that does not is noticed by a reader after some guard drops and one
  eviction (`PoolExact.StaleShows`).
- A `create_index` refused as a duplicate has already emptied the live index of that name
  (`DbRuns.DuplicateEmpties`); agreement of indexes and tables breaks exactly if that index's table has
  records (`DbRuns.StepAgreed`), a select through it is still right exactly if nothing is selected
  (`DbRuns.SelectAfterDuplicate`), and the next write on that table that is not refused repairs the index's
  entries (`DbRuns.WriteRebuilds`). `DuplicateRun.EmptyingRunEmpties` is a run in which this happens. The table
  and column named in the index file stay wrong exactly if the duplicate named others (`DbRuns.MetaStep`).
- A `create_table` whose record does not fit in a page leaves its file behind, so the name stays unusable
  (`DbRuns.RefusedKeeps`, `DbRuns.OrphansStay`).
- Char values come back trimmed: a row survives encoding exactly if no Char value ends in NUL
  (`RowCodec.RoundTripExact`), and filters compare with the trimmed constant, which
  goes unnoticed exactly under NoOp, Le and Gt and on rows that do not hold the trimmed constant
  (`ExprCompiler.NulConstantDiffers`).
- Page ids wrap into negative links from 2^31 on. A flushed page file can be opened again exactly if the head
  of its free list is below 2^31 (`PageFiles.HeaderReopens`), which under a record file means no free page or
  fewer than 2^31 - 1 data pages (`Durability.HoldsReopens`); every page id does head the list of some page file
  (`PageFiles.HeadCanBe`). An insert that must add a page beyond 2^31 - 1 data pages still binds its record, but is
  exactly the one that ends the invariant (`RecordStores.InsertInv`), and a file at that bound exists for every
  record size (`RecordStores.BoundReached`). Unless a page has one slot the insert leaves a negative head
  (`RecordStores.BeyondWraps`), and deleting any earlier record then makes every Rid of its page corrupted
  (`RecordStores.BeyondCorrupts`). A run stays below the bound exactly if the live records never outnumber the
  slots of 2^31 - 1 pages (`RecordRuns.RunFitsExact`). Only page 2^32 - 2 as a link is mistaken for the mark of a
  used page (`PageFiles.AmbiguousLink`): a page disposed while it heads the list still reads as used
  (`PageFiles.DisposedLooksUsed`).
- `RecordFile::create` accepts a page file that is not new. The first record inserted can be read back exactly
  if the second page handed out is page 1 (`RecordFiles.FirstRecordReadBack`); `RecordFiles.AcceptedOutOfOrder` is a
  page file where it is page 2. All pages come in order exactly under the condition of
  `RecordFiles.SequentialExact`.
- The comparison of rows is a total preorder only on rows of one schema (`OrderBy.MixedKindsBreakTransitivity`);
  rows under one schema are what a select sorts (`SelectPlans.ScannedConform`).

## Model

| member | source | states |
|---|---|---|
| `PageStore.RunKeepsPage` | src/storage/page/mod.rs:261-330 | over every run of allocate, write, dispose, read and flush, a page that the run neither writes nor disposes stays in use with its bytes |
| `PageStore.RunReads` | src/storage/page/mod.rs:261-330 | over every run a read returns what was last written to the page, zeros if nothing was since its allocation, and fails exactly on pages not allocated since they were last disposed |
| `PageStore.RunValid` | src/storage/page/mod.rs:261-330 | over every run the free list has no repeats and the pages in use are exactly those below the page count that are not on it |
| `PageStore.AllocateFresh` | src/storage/page/mod.rs:261-295 | allocation hands out a page that was not in use, zeroed, from the head of the free list or the end of the file, and touches no other page |
| `PageStore.DisposedRejected` | src/storage/page/mod.rs:316-330 | a disposed page is refused by read and write and a second dispose is refused as already free |
| `PageStore.ReuseIsLifo` | src/storage/page/mod.rs:265-283 | disposing any distinct used pages and allocating as many returns them in reverse order and leaves the old free list |
| `PageFiles.HeaderRoundTrip` | src/storage/page/mod.rs:122-155 | a valid file header survives encoding and decoding, whatever follows it |
| `Bytes.WordsAreLittleEndian` | src/storage/page/mod.rs:122-155 | words are stored with the least significant byte first |
| `PageFiles.UsedIff` | src/storage/page/mod.rs:385-391 | a page header reads as "used" exactly when the page is not on the threaded free list |
| `PageFiles.ThreadsValid` | src/storage/page/mod.rs:261-376 | pages threaded from the header represent a store whose free list has no repeats and holds exactly the pages not in use |
| `PageFiles.AmbiguousLink` | src/storage/page/mod.rs:326-327 | of all page ids only 2^32 - 2, stored as a link, makes the page that carries it look used |
| `PageFiles.DisposedLooksUsed` | src/storage/page/mod.rs:316-330 | the page a dispose writes still reads as used exactly if page 2^32 - 2 headed the free list |
| `PageFiles.HeaderReopens` | src/storage/page/mod.rs:140-155 | the flushed header passes the check on opening exactly when the head of the free list is below 2^31 |
| `PageFiles.HeadCanBe` | src/storage/page/mod.rs:140-155 | for each page id there is a page file with that page alone on its free list; it can be opened again exactly if the id is below 2^31 |
| `PageFiles.PageFile.Open` | src/storage/page/mod.rs:225-251 | opening fails exactly on a short device, an invalid header or missing pages; on a device that holds a store it yields that store |
| `PageFiles.PageFile.AllocatePage` | src/storage/page/mod.rs:261-295 | through the one-page write-back cache: returns the page the store would, with the store's new state, or its error and no change |
| `PageFiles.PageFile.ReadPage` | src/storage/page/mod.rs:297-304 | returns the bytes of a used page and refuses any other page; no page changes |
| `PageFiles.PageFile.WritePage` | src/storage/page/mod.rs:306-314 | takes a write guard on a used page only; the page cached before it is written back |
| `PageFiles.PageFile.DisposePage` | src/storage/page/mod.rs:316-330 | puts a used page at the head of the free list; refuses free and unknown pages |
| `PageFiles.PageFile.Flush` | src/storage/page/mod.rs:332-362 | afterwards the device alone holds the whole store, header included |
| `PageFiles.PageFile.LoadPage` | src/storage/page/mod.rs:364-383 | moves the one-page cache, writing back first; no page of the store changes |
| `PageFiles.Replay` | src/storage/page/mod.rs:261-337 | any sequence of operations on the object leaves exactly the store that the same operations give on the abstract map |
| `PoolRuns.RunInv` | src/storage/buffer/mod.rs:287-552 | free stack and LRU list partition the frames, the page table is the inverse of the frames' keys, unkeyed frames are clean and unpinned, pin counts equal the live guards: after every interleaving of calls, guard writes and guard drops |
| `PoolRuns.RunView` | src/storage/buffer/mod.rs:72-149 | over every run in which each guard write finds its frame dirty, a reader of any key sees what the guard writes and allocations say |
| `PoolDiscipline.TransparentRun` | src/storage/buffer/mod.rs:72-149 | transparency from a new pool: in every run in which no guard writes to a page forced since a write guard on it was last handed out, a reader of any key sees what the guard writes and allocations say; hits, misses, evictions, flushes and failed calls are invisible |
| `PoolDiscipline.DisciplinedExact` | src/storage/buffer/mod.rs:112-117 | those runs are exactly the ones in which every guard write finds its frame dirty |
| `PoolDiscipline.DirtyStep` | src/storage/buffer/mod.rs:443-470 | while a guard is live, its frame is cleaned exactly by a force of its page and marked dirty exactly by a new write guard on it |
| `PoolDiscipline.LosingRunLoses` | src/storage/buffer/mod.rs:339-365 | a run of six possible calls on a new pool of one frame after which a reader sees the bytes from before the write |
| `PoolDiscipline.LosingRunIsStale` | src/storage/buffer/mod.rs:339-365 | that run writes to a forced page, so the condition of TransparentRun is needed |
| `PoolRuns.FillCoherent` | src/storage/buffer/mod.rs:232-237 | after a guard write each clean frame still equals its stored page if and only if the frame is still dirty or the bytes are the stored ones |
| `PoolExact.CoherentExact` | src/storage/buffer/mod.rs:72-149 | for every capacity and state: each clean frame equals its stored page if and only if, whatever run follows in which writes find their frames dirty, every reader sees what the calls say |
| `PoolExact.StaleShows` | src/storage/buffer/mod.rs:367-397 | a clean frame that differs from its stored page is noticed: dropping the guards and evicting the file, no write among them, shows a reader the stored bytes |
| `PoolExact.WriteExact` | src/storage/buffer/mod.rs:232-237 | in terms of the calls alone: after any run of a new pool without a write to a forced page, one more guard write leaves all that can follow transparent if and only if its page was not forced since a write guard on it was last handed out or a reader already sees these bytes |
| `PoolExact.ForcedWriteIsLost` | src/storage/buffer/mod.rs:339-365 | forcing a file under a live write guard and writing through it afterwards, in any pool, any other guards live: readers see the write, and after a run without any write they see the old bytes again |
| `PoolRuns.GuardedFrame` | src/storage/buffer/mod.rs:484-498 | the frame under a live guard keeps that guard's key, is pinned, is in the page table and cannot be recycled |
| `PoolRuns.GetPageView` | src/storage/buffer/mod.rs:72-131 | fetching a page, hit or miss, successful or not, changes nothing a reader can see |
| `PoolRuns.GetPageResult` | src/storage/buffer/mod.rs:72-131 | a fetch succeeds exactly if the page is cached, or stored and a frame can be acquired; a failed fetch leaves no guard; "corrupted" is never the error |
| `PoolRuns.AllocatePageView` | src/storage/buffer/mod.rs:133-149 | allocation adds one key that no reader saw before, zeroed, and changes no other; on failure nothing |
| `PoolRuns.AllocatePageResult` | src/storage/buffer/mod.rs:133-149 | allocation succeeds exactly if a frame can be acquired, the file is known and it has a free page or an unused page id; a refused one leaves no guard and loses no frame; the pool is never found corrupted |
| `PoolRuns.AcquireTakesLeastRecent` | src/storage/buffer/mod.rs:399-417 | with the free stack empty the victim is the unpinned frame whose last touch is oldest |
| `PoolInvariants.TouchedInv` | src/storage/buffer/mod.rs:516-519 | a touch keeps the whole frame-structure invariant |
| `PoolRuns.TouchIsLatest` | src/storage/buffer/mod.rs:516-532 | a touch makes the frame the most recently touched and changes the time of no other |
| `PoolRecency.UseStep` | src/storage/buffer/mod.rs:505-532 | a page is touched exactly when it is fetched or allocated and when the last guard on it is dropped; every other cached page keeps its frame and the time of its last touch, whatever the call |
| `PoolRecency.VictimLeastRecentlyUsed` | src/storage/buffer/mod.rs:399-417 | in terms of the calls alone: after any run of a new pool the page given up is, of all cached pages without a guard, the one whose last fetch, allocation or last drop lies furthest back |
| `PoolInvariants.AcquiredFails` | src/storage/buffer/mod.rs:399-417 | acquiring fails exactly when every frame is pinned, and only with NoFrameAvailable |
| `PoolInvariants.AcquiredInv` | src/storage/buffer/mod.rs:399-417 | an acquired frame is linked, unkeyed and unpinned in a state with the whole invariant, so a caller that fails next loses no frame |
| `PoolInvariants.VictimSpec` | src/storage/buffer/mod.rs:404-412 | the backward walk ends at the last unpinned frame of the list, or at none if all are pinned |
| `PoolSteps.PinnedIffGuarded` | src/storage/buffer/mod.rs:372-376 | the pinned-pages test of flush_file is true exactly when a guard on the file is live |
| `PoolSteps.ForceInv` | src/storage/buffer/mod.rs:339-365 | force fails only on an unknown file and changes no reader's view |
| `PoolSteps.ForceMakesDurable` | src/storage/buffer/mod.rs:339-365 | after forcing a file, or one page of it, the page file is synced and holds what a reader sees, for every page or for that page |
| `PoolSteps.FlushFileInv` | src/storage/buffer/mod.rs:367-397 | flush_file is refused on an unknown file or under a guard, else leaves no frame of the file and changes no view |
| `PoolSteps.RemoveFileInv` | src/storage/buffer/mod.rs:161-168 | remove_file succeeds exactly when flush_file does, and takes that file alone away |
| `PoolSteps.RemovedHolds` | src/storage/buffer/mod.rs:161-168 | the page file handed out is synced and holds every page as readers saw it, and no other |
| `PoolSteps.FlushEvictAllInv` | src/storage/buffer/mod.rs:380-395 | evicting a set of idle frames frees exactly those frames |
| `BufferPools.BufferPool.AcquireFrame` | src/storage/buffer/mod.rs:399-417 | the pointer-walking loop over prev links returns exactly the frame and state of the specification, and terminates |
| `BufferPools.BufferPool.Unlink` | src/storage/buffer/mod.rs:534-552 | the in-place unlink of prev, next, head and tail removes the frame from the list and keeps all links mutual inverses |
| `BufferPools.BufferPool.LinkHead` | src/storage/buffer/mod.rs:521-532 | puts a frame at the head of the doubly linked list |
| `BufferPools.BufferPool.Touch` | src/storage/buffer/mod.rs:516-519 | moves the frame to the head of the list and nothing else |
| `BufferPools.BufferPool.FlushFrameIfDirty` | src/storage/buffer/mod.rs:443-470 | writes a dirty keyed frame back to its page file and cleans it |
| `BufferPools.BufferPool.RecycleFrame` | src/storage/buffer/mod.rs:484-498 | empties an unpinned frame and drops its page table entry; refuses a pinned one |
| `BufferPools.BufferPool.InstallFrame` | src/storage/buffer/mod.rs:419-441 | fills an acquired frame with a page under a new key |
| `BufferPools.BufferPool.UnpinFrame` | src/storage/buffer/mod.rs:505-514 | lowers the pin count, touching at zero; the early return at zero is never taken |
| `BufferPools.BufferPool.GetPage` | src/storage/buffer/mod.rs:72-100 | the whole fetch, every branch, moves the pool to the specified state and returns the specified guard or error |
| `BufferPools.BufferPool.GetPageMut` | src/storage/buffer/mod.rs:102-131 | the same for a write guard, marking the frame dirty |
| `BufferPools.BufferPool.AllocatePage` | src/storage/buffer/mod.rs:133-149 | the same for allocation |
| `BufferPools.BufferPool.DropGuard` | src/storage/buffer/mod.rs:239-245 | dropping a guard unpins its frame |
| `BufferPools.BufferPool.ForceFile` | src/storage/buffer/mod.rs:339-365 | the loop over the matching frames reaches the specified state |
| `BufferPools.BufferPool.FlushFile` | src/storage/buffer/mod.rs:367-397 | the pinned-frame test, the flush-and-evict loop and the sync reach the specified state or refuse |
| `BufferPools.BufferPool.RemoveFile` | src/storage/buffer/mod.rs:161-168 | returns the file of the pool after a flush, or refuses |
| `RecordLayout.SlotsPerPageExact` | src/storage/record/mod.rs:1149-1165 | the slot count is the largest n with 12 + ceil(n/8) + n * size <= 4092; it fails exactly for size 0 and when n = 1 does not fit |
| `RecordLayout.ComputeSlotsPerPage` | src/storage/record/mod.rs:1149-1165 | the decreasing loop computes that count |
| `RecordLayout.RecordInPage` | src/storage/record/mod.rs:1058-1073 | every record range lies after the header and the bitmap and inside the page |
| `RecordLayout.RecordsDisjoint` | src/storage/record/mod.rs:1058-1073 | record ranges of distinct slots are disjoint |
| `RecordLayout.DecodePutSlot` | src/storage/record/mod.rs:1298-1312 | setting one bitmap bit changes that slot alone, not the header, the other slots or any record |
| `RecordLayout.DecodePutRecord` | src/storage/record/mod.rs:926-937 | writing one record's bytes changes that record alone |
| `RecordLayout.DecodePutHeader` | src/storage/record/mod.rs:650-655 | writing the page header changes link and counter alone |
| `RecordLayout.InitializePage` | src/storage/record/mod.rs:1167-1188 | an initialised page decodes to all slots free and never fails on a valid layout |
| `RecordStores.GetIsLookup` | src/storage/record/mod.rs:911-924 | get returns the bound bytes, EmptySlot for an unbound Rid in range and InvalidRid out of range; the corruption checks never fire |
| `RecordStores.InsertInv` | src/storage/record/mod.rs:867-909 | insert fails only on a wrong length; it keeps the chain acyclic, holding exactly the pages with a free slot, full pages marked -2, counters equal to the set bits, exactly unless it adds a page beyond the last id that fits in a link |
| `RecordStores.BeyondWraps` | src/storage/record/mod.rs:995-996 | the insert beyond that leaves a negative head exactly if a page has more than one slot |
| `RecordStores.WrappedLinkCorrupts` | src/storage/record/mod.rs:959-965 | under such a head the first delete in a full page makes every later call on that page fail as corrupted |
| `RecordStores.BeyondCorrupts` | src/storage/record/mod.rs:939-969 | with more than one slot to a page: after the insert beyond the bound, deleting any record that was there before makes every Rid of its page fail as corrupted |
| `RecordStores.BoundReached` | src/storage/record/mod.rs:977-998 | for every record size that fits, a file of 2^31 - 1 full pages satisfies the invariant and has no room for another page |
| `RecordStores.InsertBinds` | src/storage/record/mod.rs:867-909 | insert binds a Rid that was not live to the bytes and changes no other Rid |
| `RecordStores.InsertPlace` | src/storage/record/mod.rs:867-909 | the record goes to the first free slot of the page at the head of the chain, or to the first slot of a new page if there is none |
| `RecordStores.FreedIsNext` | src/storage/record/mod.rs:939-969 | a record deleted from a full page leaves its Rid to the very next insert |
| `RecordStores.UpdateInv` | src/storage/record/mod.rs:926-937 | update keeps the invariant and fails exactly on a wrong length or a Rid that is not live |
| `RecordStores.UpdateRebinds` | src/storage/record/mod.rs:926-937 | update rebinds its Rid alone |
| `RecordStores.DeleteInv` | src/storage/record/mod.rs:939-969 | delete keeps the invariant, relinking a page that was full, and fails exactly on a Rid that is not live |
| `RecordStores.DeleteUnbinds` | src/storage/record/mod.rs:939-969 | delete unbinds its Rid alone |
| `RecordStores.CreateInv` | src/storage/record/mod.rs:729-753 | a new file exists exactly if one record fits in a page; it is valid and empty |
| `RecordRuns.ApplyRefines` | src/storage/record/mod.rs:867-969 | each operation on the record file is the same operation on the finite map from Rid to bytes, and an insert picks a Rid not live |
| `RecordRuns.ApplyInv` | src/storage/record/mod.rs:867-969 | exactly the operations that add no page beyond the last id that fits in a link keep the file valid |
| `RecordRuns.RunRefines` | src/storage/record/mod.rs:867-969 | over every run of such operations, which RunFitsExact characterises, the record file is the finite map from Rid to bytes that the operations describe |
| `RecordRuns.RunFitsExact` | src/storage/record/mod.rs:867-969 | a run consists of such operations exactly if at no point of it more records are live than 2^31 - 1 pages have slots |
| `RecordRuns.SpaceIsTight` | src/storage/record/mod.rs:870-872 | from creation on, while the live records never outnumber the slots of 2^31 - 1 pages, the file is the map the operations describe and its data pages are the peak number of live records divided by the slots per page, rounded up |
| `RecordFiles.RecordFile.Insert` | src/storage/record/mod.rs:867-909 | if no page is added or the page file hands out the next page in order, exactly the specified insert through the buffer pool; else the record lands in a page its Rid does not lead to, or no page is left and nothing changes |
| `RecordFiles.RecordFile.AllocateDataPage` | src/storage/record/mod.rs:977-998 | adds whatever page the page file hands out, initialised, as head of the free chain, and counts it; in order, that is the specified growth |
| `RecordFiles.RecordFile.Get` | src/storage/record/mod.rs:911-924 | returns what the specification returns and changes nothing |
| `RecordFiles.RecordFile.Update` | src/storage/record/mod.rs:926-937 | does exactly the specified update, whether or not the page file hands out pages in order |
| `RecordFiles.RecordFile.Delete` | src/storage/record/mod.rs:939-969 | does exactly the specified delete, in order or not |
| `RecordFiles.RecordFile.PersistHeader` | src/storage/record/mod.rs:1000-1010 | writes the header page if it is dirty; the model is unchanged |
| `RecordFiles.RecordFile.Flush` | src/storage/record/mod.rs:971-975 | afterwards the page file is synced and by itself holds header, chain and all records, in order or not |
| `RecordFiles.RecordFile.Create` | src/storage/record/mod.rs:729-753 | succeeds exactly if there is a frame, page 0 is handed out and a record fits; the result is the empty file |
| `RecordFiles.RecordFile.Open` | src/storage/record/mod.rs:755-790 | opening a page file that holds a record file gives back that very file: same header, chain and Rid map |
| `RecordFiles.HeaderPasses` | src/storage/record/mod.rs:593-623 | the check made on opening accepts the header of every reachable state |
| `RecordFiles.SequentialExact` | src/storage/record/mod.rs:977-998 | the page file hands out pages n, n + 1, ... for ever exactly if its free list is ascending from n and, unless all page ids are taken, ends where the file ends |
| `RecordFiles.FirstRecordReadBack` | src/storage/record/mod.rs:729-924 | on every page file that creation accepts, the first inserted record is read back exactly if the second page handed out is page 1; else get refuses the Rid that insert returned |
| `RecordFiles.AcceptedOutOfOrder` | src/storage/record/mod.rs:729-743 | a page file that creation accepts and whose second page is page 2 |
| `RecordReplay.Replay` | src/storage/record/mod.rs:867-969 | any sequence of inserts, gets, updates and deletes on the object, with no more live records than 2^31 - 1 pages have slots, leaves the map from Rid to bytes that the same operations give |
| `RecordReplay.ReplayAndReopen` | src/storage/record/mod.rs:729-790 | created, run through such a sequence, flushed and opened again, the file is the one the sequence gives from an empty file |
| `Durability.DeviceGivesRecords` | src/storage/record/mod.rs:755-790 | the bytes of a device that holds a flushed record file give back its header, chain and Rid map |
| `Durability.FlushedOpens` | src/storage/page/mod.rs:225-251 | a flushed record file passes the checks of both open calls, the page file's exactly if it has no free page or fewer than 2^31 - 1 data pages |
| `Durability.OpenDevice` | src/storage/record/mod.rs:755-790 | opening page file and record file on a device that holds a record file succeeds exactly if the free list's head is below 2^31, and gives the record file that was flushed |
| `Durability.HoldsReopens` | src/storage/page/mod.rs:140-155 | the page file under a record file can be opened again under exactly that condition |
| `RecordScans.ScanAllExact` | src/storage/record/mod.rs:1121-1147 | a whole scan yields exactly the live records |
| `RecordScans.ScanOrdered` | src/storage/record/mod.rs:1121-1147 | in strictly increasing page and slot order, hence each once |
| `RecordScans.RecordScan.NextRecord` | src/storage/record/mod.rs:1121-1137 | the cursor loop returns the next record satisfying the predicate, skipping only others, and terminates |
| `RecordScans.CollectAll` | src/storage/record/mod.rs:1121-1147 | reading a scan to its end gives all matching records in order, or the first error of the predicate |
| `ExprCompiler.AcceptedIffWellTyped` | src/table/mod.rs:830-897 | an expression compiles to a filter the scan accepts exactly when it is well typed |
| `ExprCompiler.MatchesMeans` | src/storage/record/mod.rs:354-389 | on every record the compiled filter never errs and matches exactly when the expression, constants trimmed of NUL, holds on the decoded row; a comparison holds by equality and order of the values themselves, not by the comparison functions |
| `ExprCompiler.IntLeaf` | src/storage/record/mod.rs:1190-1201 | all seven operators on Int32, column against constant and against column: the answer is x = n, x != n, x < n, x > n, x <= n, x >= n, and always for NoOp |
| `ExprCompiler.FloatLeaf` | src/storage/record/mod.rs:1247-1286 | the same on Float32 patterns, ordered by sign and then by magnitude, larger first among the negative ones |
| `ExprCompiler.TextLeaf` | src/storage/record/mod.rs:1247-1286 | the same on Char, ordered by the first differing byte or, failing that, by which text ends first |
| `ExprCompiler.ConnectiveAnswers` | src/storage/record/mod.rs:354-389 | AND answers that all operands match, OR that some does, NOT that its operand does not |
| `Predicates.AnswersIffValid` | src/storage/record/mod.rs:354-389 | for every filter tree and record, matching fails exactly if validation refuses the tree for records of that size, although AND and OR stop early |
| `ExprCompiler.CompilationPreservesMeaning` | src/table/mod.rs:830-897 | for constants that do not end in NUL the compiled filter means the expression, for every schema, tree and record |
| `ExprCompiler.NulConstantDiffers` | src/table/mod.rs:873-890 | for a constant that ends in NUL, filter and expression agree on a row exactly if the operator is NoOp, Le or Gt or the row does not hold the trimmed constant; all seven operators |
| `ExprCompiler.CompareToNul` | src/storage/record/mod.rs:1268-1286 | a text compares with a constant ending in NUL as with the trimmed constant, except that the trimmed constant itself is less |
| `ExprCompiler.CompareTrimmed` | src/storage/record/mod.rs:1268-1286 | zero padding keeps the lexicographic order of strings without trailing NUL |
| `Predicates.CompareBytesTransitive` | src/storage/record/mod.rs:1247-1286 | byte comparison is transitive |
| `Predicates.FloatKeyInjective` | src/storage/record/mod.rs:1247-1266 | the Float32 comparison is total: only equal bit patterns compare equal |
| `RowCodec.CompileSchema` | src/table/mod.rs:712-750 | the loop with a running offset computes the layout or the first objection |
| `RowCodec.SchemaAcceptedExact` | src/table/mod.rs:712-750 | a schema is accepted exactly if its names are identifiers, its columns are at least one, distinct and non-empty, and the size does not overflow |
| `RowCodec.CompiledTiles` | src/table/mod.rs:712-750 | the columns of an accepted schema tile the record without gap or overlap |
| `RowCodec.EncodeRow` | src/table/mod.rs:752-796 | encoding column by column into a zeroed buffer yields the specified bytes or the first error |
| `RowCodec.EncodedExactly` | src/table/mod.rs:752-796 | a row is encoded exactly if it has one value per column and each fits; else the error is the count or that of the first value that does not fit |
| `RowCodec.FieldsEncoded` | src/table/mod.rs:752-796 | encoding one column never disturbs another |
| `RowCodec.RoundTripExact` | src/table/mod.rs:752-828 | decoding an encoded row gives it back if and only if no Char value ends in NUL |
| `RowCodec.DecodeEncoded` | src/table/mod.rs:819-822 | in general decoding gives the row with trailing NUL bytes trimmed |
| `RowCodec.EncodeDecoded` | src/table/mod.rs:752-828 | encoding a decoded record gives the same bytes, for every record |
| `TableOps.SnapshotExact` | src/table/mod.rs:483-501 | the records collected are exactly the live ones whose decoded row satisfies the filter, each once, in order |
| `TableOps.UpdateFailsAlike` | src/table/mod.rs:459-466 | whether new bytes can be computed, and the error if not, is the same for all records |
| `TableOps.UpdateIsAtomic` | src/table/mod.rs:453-471 | UPDATE acts on a snapshot: it fails, changing nothing, exactly on an ill-typed filter or if some row is selected and the assignments cannot be encoded, with that error; else exactly the selected records carry their new bytes |
| `TableOps.DeleteIsAtomic` | src/table/mod.rs:473-481 | DELETE removes exactly the selected records and fails, changing nothing, exactly on an ill-typed filter |
| `TableOps.UpdateKeepsField` | src/table/mod.rs:459-465 | the bytes of columns not assigned stay as they were |
| `TableOps.EntriesExact` | src/table/mod.rs:503-523 | one index entry per record, with the column's value as key |
| `TableRows.InsertMeans` | src/table/mod.rs:419-422 | on decoded rows: a Rid that held nothing now holds the given row, Char values trimmed, and no other row changed; fails exactly if the row does not fit the columns |
| `TableRows.UpdatedMeans` | src/table/mod.rs:459-466 | each assigned column then holds the last value assigned to it, trimmed, each other what it held before; fails exactly if an assignment names no column or the last value given to a column does not fit, with the first such objection |
| `TableRows.UpdateMeans` | src/table/mod.rs:453-471 | exactly the rows the filter holds on are changed so, and their number is returned; fails exactly on an ill-typed filter or if some row is chosen and the assignments do not fit |
| `TableRows.DeleteMeans` | src/table/mod.rs:473-481 | exactly the rows the filter holds on are gone, and their number is returned; fails exactly on an ill-typed filter |
| `TableScans.ScanMeans` | src/table/mod.rs:424-442 | returns exactly the rows the filter holds on, in page and slot order; fails exactly on an ill-typed filter |
| `TableScans.ScanAfterInsert` | src/table/mod.rs:419-442 | a scan after an insert returns exactly one more row, the one inserted |
| `Tables.Table.Insert` | src/table/mod.rs:419-422 | the given row, Char values trimmed, is under the Rid returned and no other row changed, or it does not fit and nothing changed; the table stays valid exactly unless the record went beyond the last page id that fits in a link |
| `Tables.Table.Scan` | src/table/mod.rs:424-442 | returns the decoded rows of the selected records in scan order |
| `Tables.Table.UpdateWhere` | src/table/mod.rs:453-471 | the collecting and writing loops change exactly the rows the filter holds on, to what the assignments say |
| `Tables.Table.DeleteWhere` | src/table/mod.rs:473-481 | the loops remove exactly the rows the filter holds on |
| `Tables.Table.RowsByRids` | src/table/mod.rs:444-451 | decodes the records under a list of Rids in order, or fails on the first that is not live |
| `Text.LinesUnlines` | src/storage/index/mod.rs:173-202 | splitting written text into lines gives the lines back |
| `Text.JoinSplit` | src/storage/index/mod.rs:209-259 | splitting tab-joined parts gives the parts back if none contains a tab |
| `Text.I32TextRoundTrip` | src/storage/index/mod.rs:224-245 | parsing a printed i32, negative or not, gives it back |
| `Text.I32TextExact` | src/storage/index/mod.rs:224-245 | a text is read as an i32 exactly if it is an optional sign, any number of zeros and the digits of a number in range |
| `IndexFiles.WriteLoadRoundTrip` | src/storage/index/mod.rs:173-259 | loading a written index file gives the same meta data and the sorted entries |
| `IndexFiles.SortSpec` | src/storage/index/mod.rs:189-190 | the entries are written as a sorted permutation |
| `IndexFiles.WriteIndexFile` | src/storage/index/mod.rs:173-202 | the writing loop produces that text |
| `IndexFiles.LoadIndexFile` | src/storage/index/mod.rs:209-259 | the reading loop accepts and refuses exactly what the specification does |
| `IndexFiles.LookupExact` | src/storage/index/mod.rs:266-271 | on sorted entries the partition points enclose exactly the Rids filed under the key |
| `IndexFiles.LookupOrdered` | src/storage/index/mod.rs:266-271 | in page and slot order, each once |
| `CatalogText.CatalogRoundTrip` | src/table/mod.rs:561-664 | loading a saved catalog of accepted schemas gives the catalog back, whatever the order of its tables |
| `CatalogText.LoadCatalog` | src/table/mod.rs:561-638 | the line-reading loop with a current table does what the specification says on every text |
| `CatalogText.SaveCatalog` | src/table/mod.rs:640-664 | the nested writing loops produce the specified text |
| `CatalogText.IndexCatalogRoundTrip` | src/storage/index/mod.rs:82-136 | loading a saved index catalog gives back every index under its name and nothing else |
| `CatalogText.ReadIndexCatalog` | src/storage/index/mod.rs:82-117 | the reading loop, duplicate names included |
| `CatalogText.SaveIndexCatalog` | src/storage/index/mod.rs:119-136 | the writing loop |
| `IndexPath.LookupIsSelection` | src/storage/index/mod.rs:266-271 | in an up-to-date index the Rids under a key are those of the records an equality filter selects, in scan order |
| `IndexPath.FastPathIsScan` | src/query/mod.rs:453-462 | rows fetched through an up-to-date index file equal the rows of the scan, in the same order |
| `IndexPath.EmptiedIndexMisses` | src/table/mod.rs:305-308 | through an index file without entries nothing is found, which is right exactly if the scan selects nothing |
| `DbRuns.RunAgreed` | src/table/mod.rs:335-355 | in every state reached by harmless requests, refused ones included, every index holds exactly the sorted entries of its table |
| `DbRuns.StepAgreed` | src/table/mod.rs:278-311 | a request breaks the agreement if and only if it is a create_index, valid otherwise, under the name of an index whose table has records |
| `DbRuns.FastPathAfterRun` | src/query/mod.rs:440-475 | after every such run from an empty database, a select through any usable index answers as the scan does |
| `DbRuns.DuplicateEmpties` | src/table/mod.rs:305-308 | a create_index refused as duplicate empties the live index file of that name |
| `DbRuns.SelectAfterDuplicate` | src/table/mod.rs:305-308 | until the next write a select through it finds nothing; it agrees with the scan exactly if no record is selected |
| `DuplicateRun.EmptyingRunEmpties` | src/table/mod.rs:305-308 | a run of four requests from an empty database in which this happens |
| `DbRuns.MetaStep` | src/storage/index/mod.rs:261-264 | an index file names its index's table and column from creation on, through every rebuild, until a refused duplicate that names others; rebuilds never put it right |
| `DbRuns.WriteRebuilds` | src/query/mod.rs:382-392 | a write that is not refused makes all indexes of its table current, stale ones too; a refused write changes nothing at all |
| `DbRuns.RefusedKeeps` | src/query/mod.rs:382-522 | a refused request changes nothing, with exactly two exceptions: the duplicate index, and a table whose record does not fit |
| `DbRuns.CreateTableExact` | src/table/mod.rs:248-259 | a table is created exactly if the schema is accepted, the name is free in the catalog and on disk, and a record fits in a page |
| `DbRuns.OrphansStay` | src/table/mod.rs:254-255 | a table file left behind by a refused creation blocks its name for the rest of the run |
| `DbRows.InsertEffect` | src/query/mod.rs:382-392 | INSERT on a database: the given row is under a new Rid of the table; every other row, table, schema and index stays, and only files of the table's indexes change |
| `DbRows.UpdateEffect` | src/query/mod.rs:477-492 | UPDATE on a database: exactly the rows its own filter holds on before the request hold what its assignments say; all else stays |
| `DbRows.DeleteEffect` | src/query/mod.rs:494-504 | DELETE on a database: exactly the rows its own filter holds on are gone; all else stays |
| `DbRows.FetchedMeans` | src/query/mod.rs:440-475 | a select by scan fetches exactly the rows its filter holds on, in page and slot order |
| `DbRows.SelectAfterInsert` | src/query/mod.rs:440-475 | a select of all rows after an INSERT finds exactly one more, the one given |
| `DbRows.CreateTableEffect` | src/table/mod.rs:248-259 | a new table has its schema and no rows; all other tables and all indexes stay |
| `DbRows.DropTableEffect` | src/table/mod.rs:261-276 | the table, its indexes and their files are gone; all other tables, rows and indexes stay |
| `DbRows.CreateIndexEffect` | src/table/mod.rs:278-311 | a new index is current at once, on its table and column; all tables, rows and other indexes stay, refused or not |
| `DbRows.DropIndexEffect` | src/table/mod.rs:313-318 | the index and its file are gone; all else stays |
| `DbRows.RunKeepsTable` | src/table/mod.rs:248-355 | over every run that neither writes to a table nor drops it, its schema and all its rows stay |
| `Databases.Database.Open` | src/table/mod.rs:236-246 | opening succeeds exactly if both catalogs load, and has just what they load to; on the files of a sound database it gives that database back |
| `Databases.Database.Reopen` | src/table/mod.rs:236-246 | opening the files any database leaves behind gives the same tables, records, indexes and entries |
| `Databases.Database.SaveTables` | src/table/mod.rs:640-664 | whatever the order of the map, the file written loads back to the catalog |
| `Databases.Database.OpenTable` | src/table/mod.rs:357-371 | opens exactly the tables in the catalog, with the contents last flushed |
| `Databases.Database.CreateTable` | src/table/mod.rs:248-259 | does the specified creation, or refuses |
| `Databases.Database.DropTable` | src/table/mod.rs:261-276 | drops the table, its file, and the files and entries of its indexes |
| `Databases.Database.CreateIndex` | src/table/mod.rs:278-311 | writes the file, checks the name, then rebuilds; exactly the specified state in each branch |
| `Databases.Database.RebuildIndexesForTable` | src/table/mod.rs:335-355 | rebuilds each index of the table from a scan; no step of it can fail |
| `Databases.Database.DropIndex` | src/table/mod.rs:313-318 | drops an index and its file, or refuses an unknown name |
| `QueryPlan.NormalizeNamedInsert` | src/query/mod.rs:580-618 | succeeds exactly if every column is named once with a value of its kind and nothing else is named; the values stand in schema order; a refusal is the first in the order entries, then columns of the schema |
| `QueryPlan.NormalizeAssignments` | src/query/mod.rs:676-713 | accepts exactly non-empty lists of distinct known columns with values of their kinds; keeps their order; a refusal is that of the first bad assignment, repeated name before unknown name before kind |
| `QueryPlan.ResolveProjection` | src/query/mod.rs:715-746 | resolves exactly distinct known columns, in the requested order; a refusal is that of the first repeated or unknown name |
| `QueryPlan.ResolveOrderBy` | src/query/mod.rs:748-769 | resolves exactly distinct known sort columns; a refusal is that of the first repeated or unknown one |
| `QueryPlan.ValidateRowTypes` | src/query/mod.rs:865-888 | accepts exactly rows with one value of the right kind per column; a refusal is the count, else the first column with a wrong kind |
| `QueryPlan.ValidateExprColumns` | src/query/mod.rs:890-908 | accepts exactly filters over known columns |
| `QueryPlan.FilterRefusal` | src/query/mod.rs:890-919 | a refused filter is refused with the first unknown column in reading order |
| `OrderBy.CompareRowsTransitive` | src/query/mod.rs:791-825 | on rows of one schema the comparison, in any mix of directions, is transitive and equal rows are interchangeable |
| `OrderBy.CompareRowsReverse` | src/query/mod.rs:791-804 | comparing the other way round gives the opposite |
| `OrderBy.CompareRowsMeans` | src/query/mod.rs:791-825 | a row is less exactly if at the first key under which the rows differ it holds the smaller value, the larger one if the key is descending; equal exactly if they hold the same values under all keys |
| `OrderBy.MixedKindsBreakTransitivity` | src/query/mod.rs:818-825 | across kinds the comparison is not transitive; a concrete triple |
| `OrderBy.StableSortUnique` | src/query/mod.rs:782-789 | there is only one stable sorted arrangement, so any stable sort computes it |
| `OrderBy.SortRowsSpec` | src/query/mod.rs:782-789 | the model's sort is a stable sorted arrangement of all rows |
| `OrderBy.OrderedPrefix` | src/query/mod.rs:782-831 | order and limit keep a prefix: each kept row goes before each dropped one |
| `SelectPlans.AnswerMeans` | src/query/mod.rs:463-468 | no answer row is preceded by a later or dropped one: at the first key under which they differ it holds the smaller value, the larger one for a descending key, and rows equal under all keys stay in input order; as many rows as the limit allows, projected; sort columns need not be |
| `SelectPlans.ScannedConform` | src/table/mod.rs:424-442 | scanned rows carry values of their columns' kinds |
| `Engines.QueryEngine.ExecuteInsert` | src/query/mod.rs:382-392 | refused by the schema nothing happens, and the refusal is the first; else the row given is under a new Rid, nothing else changed, and indexes and tables still agree |
| `Engines.QueryEngine.ExecuteSelect` | src/query/mod.rs:440-475 | answers exactly if the plan resolves and the rows can be fetched; a plan is refused for table, filter, projection, sort keys or limit, whichever comes first; while indexes agree, the rows fetched are those the filter holds on, through an index or not; a usable index is used |
| `Engines.QueryEngine.ExecuteUpdate` | src/query/mod.rs:477-492 | plans exactly as the schema allows, else refuses for table, filter or assignments, whichever comes first; then exactly the rows the filter holds on hold what the assignments say, and indexes and tables still agree |
| `Engines.QueryEngine.ExecuteDelete` | src/query/mod.rs:494-504 | plans exactly as the schema allows, else refuses for table or first unknown column; then exactly the rows the filter holds on are gone, and indexes and tables still agree |
| `Engines.QueryEngine.ExecuteCreateTable` | src/query/mod.rs:394-397 | creates the table or passes the refusal on; indexes and tables still agree |
| `Engines.QueryEngine.ExecuteDropTable` | src/query/mod.rs:506-512 | fails exactly on an unknown table; drops its indexes with it, so agreement is kept |
| `Engines.QueryEngine.ExecuteDropIndex` | src/query/mod.rs:514-522 | fails exactly on an unknown index |
| `Engines.QueryEngine.ExecuteCreateIndex` | src/query/mod.rs:399-438 | the answer for every input, and that agreement survives exactly the harmless requests |
| `Engines.IndexAnswered` | src/query/mod.rs:399-438 | the query layer refuses whatever the database would for table or column, with no effect, and passes other refusals on by name |
| `EngineRuns.RowIsGiven` | src/query/mod.rs:580-618 | the row an accepted insert stands for is unique: the one given, or the values given by name in schema order |
| `EngineRuns.Execute` | src/query/mod.rs:382-522 | each engine request is the database step it is planned as, or nothing if it is refused |
| `EngineRuns.RunKeepsAgreement` | src/query/mod.rs:382-522 | over every run of harmless engine requests, refused ones included, every index holds exactly the entries of its table |
| `EngineRuns.Replay` | src/query/mod.rs:382-522 | any sequence of requests to the engine leaves the database that their steps give |
| `EngineRuns.ReplayThenSelect` | src/query/mod.rs:440-475 | after any such run a select succeeds exactly when the scan would, with the answer computed from the rows its filter holds on, index or not |

## Left out

- Real files, seeks, `sync_all`, paths and crashes: a device is a byte array (or, above the pool, the contents of a page file) and its operations succeed; opening a missing file is not modelled.
- Locks and poisoning: mutual exclusion is taken as given.
- The page file inside the pool: the pool and the layers above hold each file by the contract state that `PageFiles.PageFile` is proved to keep (`PageStore.Store`), not as an object with its one-page cache.
- Guards as borrowed slices: reading or writing through a guard copies the whole page data; a record-level edit of a page is one write of the edited bytes.
- Width of `pin_count` (u32): counts are unbounded.
- PoolRuns.RunView: needs that each write finds its frame dirty, which is private; `PoolDiscipline.DisciplinedExact` and `PoolExact.WriteExact` say when that is so, and needed, in terms of the calls.
- RecordRuns.RunRefines: for runs whose live records never outnumber the slots of 2^31 - 1 pages (`RecordRuns.RunFitsExact`); the insert that goes beyond is still covered by `RecordRuns.ApplyRefines`, what follows it by `RecordStores.BeyondCorrupts` only.
- RecordRuns.SpaceIsTight: for the same runs; so are `RecordReplay.Replay` and `RecordReplay.ReplayAndReopen`.
- Engines.QueryEngine.ExecuteInsert: requires that the insert adds no page beyond 2^31 - 1 data pages, and so do the runs of `EngineRuns`; the table's file would hold a wrapped link afterwards.
- PageStore.RunValid: for runs that dispose no page while page 2^32 - 2 heads the free list; what happens then is `PageFiles.DisposedLooksUsed`.
- PageStore.RunKeepsPage: for the same runs.
- PageFiles.Replay: for the same runs.
- PageFiles.PageFile.DisposePage: requires that page 2^32 - 2 is not the head of the free list, see above.
- Databases.Database.FindIndex: returns some index on the column, where the program returns the first by name; the results are proved the same for every choice.
- Databases.Database.RebuildIndexesForTable: visits the indexes in any order, where the program goes by name; no rebuild affects another.
- DbRows.UpdateEffect: for an ill-typed filter it says that the request fails without effect, not with which error; the same holds for `DbRows.DeleteEffect` and `DbRows.FetchedMeans`.
- UTF-8 validity of stored text: text enters as whole strings no longer than the column, and trimming NUL bytes keeps it valid, so the decoder's error cannot arise; values are byte sequences here.
- Error texts, types of errors merged by `From`, and the table name inside query errors: errors of the record and pool layers are one case each in the table layer.
- The standard sort and `partition_point`: replaced by functions whose results are shown to be the only possible ones (`OrderBy.StableSortUnique`, `IndexFiles.LookupExact`).
- `ScanPredicate`, `scan_with` closures: they repeat the clause engine.
- Show, describe and metadata calls, request and result records: accessors.
- Several engines on one directory, and tables opened through `engine.database()`: they bypass index rebuilding by design.
- The moment of writing: each file is taken to be written whole, at the point where the program writes it.
