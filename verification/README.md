# micro-DB buffer pool in Dafny

This project models the page buffer pool of micro-DB (`BufferPool.java`). The pool is a
cache of pages keyed by `PageId` that sits between the row/table layer, the lock manager
and the table files on disk. It models:

- the read path `getPage`: lock, cache lookup, and on a miss `isFull`, `evictPages`, disk
  read and install;
- the Clock (second-chance) scan of `evictPages` over the `secondChance` bit array and the
  `frames` index-to-page table;
- the dirty-page merge that ends `insertRow` and `deleteRow`;
- `flushPages` (write back dirty pages and clear their flags) and `discardPages` (drop
  pages without writing them).

The pool is an immutable record, `BufferPool.State`, and every operation is a pure function
from one state to the next. Collaborators are parameters:

- the lock manager is a function `(Transaction, PageId) -> bool` that says whether the lock
  was granted;
- `readPageFromDisk` is a function `PageId -> Page`;
- `writePageToDisk` appends a `DiskWrite` to the log that `FlushPages` returns;
- the table operation behind `insertRow` and `deleteRow` is a function from the
  connection's dirty-page map before the call to the map after it.

Java exceptions become `Err` results. The two `null` lists of `flushPages` and
`discardPages` become `None`.

The model follows the code as written, which differs from a textbook Clock pool:

- the scan's victim frame is handed to the new page, but the victim's page is never removed
  from `pool`, so `pool` can hold more pages than `capacity` (`Scenarios.PoolOutgrowsCapacity`);
- the scan cursor `victim` is never advanced and stays 0;
- a cache hit does not set the reference bit, so a hit changes nothing;
- after an eviction, `getPage` also writes the new page into `frames[frame]`, and that install
  cursor stops at the last frame, so one page can occupy two frames
  (`Scenarios.ThirdMissFillsTwoFrames`);
- there are no pin counts, no "pool exhausted" error and no flush of a dirty victim.

The scan is proved for any cursor in `[0, capacity)`, not only for 0. A first pass clears
every set bit up to the first clear one. If no clear bit is found, a second pass stops at
the cursor. So the loop ends after at most two passes and `capacity + 1` probes.

## Model

| member | source | states |
|---|---|---|
| `ClockScan.FirstClear` | micro-DB-main/src/main/java/com/slowpoke/bufferpool/BufferPool.java:141-146 | the index where a pass stops: every bit from the start up to it is set, the bit there is clear, and it is the array length exactly when every bit from the start is set |
| `ClockScan.Victim` | micro-DB-main/src/main/java/com/slowpoke/bufferpool/BufferPool.java:139-153 | the victim frame lies in `[victim, capacity)`; when some bit from the cursor is clear it is the first clear one, and when all are set it is the cursor itself |
| `ClockScan.Swept` | micro-DB-main/src/main/java/com/slowpoke/bufferpool/BufferPool.java:141-147 | the bits after the scan: bits before the cursor unchanged, the victim's bit set, every bit the scan passed cleared, bits after a first-pass victim untouched, and after a second pass every bit past the cursor clear |
| `ClockScan.Scan` | micro-DB-main/src/main/java/com/slowpoke/bufferpool/BufferPool.java:139-154 | the nested while/for/break loop picks `Victim` and leaves `Swept`; it runs two passes exactly when every bit from the cursor is set, otherwise one, and makes `FirstClear - victim + 1` probes, at most `2 * capacity` |
| `BufferPool.Init` | micro-DB-main/src/main/java/com/slowpoke/bufferpool/BufferPool.java:44-48 | a new pool has no resident page, no occupied frame and all reference bits clear; it gets exactly the configured capacity, one reference bit per frame, and both cursors at 0; it is well-formed exactly when the capacity is at least 1 |
| `BufferPool.EvictPages` | micro-DB-main/src/main/java/com/slowpoke/bufferpool/BufferPool.java:135-156 | nothing changes when the page already occupies a frame; otherwise the scan's victim frame is reassigned to the page and the bits become `Swept`; `pool`, both cursors and the set of occupied frames never change |
| `BufferPool.GetPage` | micro-DB-main/src/main/java/com/slowpoke/bufferpool/BufferPool.java:57-82 | a refused lock rethrows and leaves the whole state unchanged; a hit returns the resident page and changes nothing; a miss returns the disk page, adds exactly that page to `pool`, puts it in the install frame with its bit set, and moves the install cursor forward unless it is on the last frame, where it stays; a miss on a pool that is not full changes no other frame or bit, and a miss on a full pool changes them exactly as `EvictPages` does, including when the page already holds a frame; the state stays well-formed (cursor in `[0, capacity)`, occupied frames a prefix) |
| `BufferPool.FullnessOnMiss` | micro-DB-main/src/main/java/com/slowpoke/bufferpool/BufferPool.java:124-126 | `isFull` after a granted miss holds exactly when the pool held at least `capacity - 1` pages before; a miss on a full pool leaves it full |
| `BufferPool.MissWhenFull` | micro-DB-main/src/main/java/com/slowpoke/bufferpool/BufferPool.java:69-79 | a full miss for a page with no frame writes the page into both the victim frame and the install frame and sets both bits; the page that held the victim frame stays resident |
| `BufferPool.FramesWithinCapacity` | micro-DB-main/src/main/java/com/slowpoke/bufferpool/BufferPool.java:75-78 | in a well-formed pool every frame index is in `[0, capacity)`, so at most `capacity` frames are occupied |
| `BufferPool.GetPageTwice` | micro-DB-main/src/main/java/com/slowpoke/bufferpool/BufferPool.java:68-81 | after a granted `getPage`, a second granted `getPage` of the same page is a hit that returns the same page and leaves the state unchanged |
| `RowUpdates.InsertRow` | micro-DB-main/src/main/java/com/slowpoke/bufferpool/BufferPool.java:84-103 | a transaction without an XLock is rejected before the table is called, and pool and dirty map are unchanged; an empty dirty map is a `DbException` with the pool unchanged; otherwise the table step has run, every dirty entry overwrites its `pool` entry, other entries are kept, no other field changes and the dirty map is cleared |
| `RowUpdates.DeleteRow` | micro-DB-main/src/main/java/com/slowpoke/bufferpool/BufferPool.java:105-119 | the same XLock rejection; otherwise the table step has run and every dirty entry, possibly none, overwrites its `pool` entry and the dirty map is cleared; succeeds exactly when the transaction holds an XLock |
| `RowUpdates.MergeDirty` | micro-DB-main/src/main/java/com/slowpoke/bufferpool/BufferPool.java:99-101 | the `pool.put` loop over the dirty entries: the result's keys are the resident keys plus the dirty keys, a dirty entry replaces any resident copy, and every other resident page is kept |
| `RowUpdates.UpdatesKeepValid` | micro-DB-main/src/main/java/com/slowpoke/bufferpool/BufferPool.java:99-101 | both merges keep a well-formed pool well-formed and never remove a resident page |
| `RowUpdates.InsertAgreesWithDelete` | micro-DB-main/src/main/java/com/slowpoke/bufferpool/BufferPool.java:95-97 | insert and delete have the same effect except on an empty dirty map, where delete succeeds and insert fails |
| `FlushDiscard.FlushEntry` | micro-DB-main/src/main/java/com/slowpoke/bufferpool/BufferPool.java:188-193 | one turn of the flush loop: the page ends clean under the same keys; it is written, as its cleaned copy, exactly when it was dirty |
| `FlushDiscard.FlushEach` | micro-DB-main/src/main/java/com/slowpoke/bufferpool/BufferPool.java:187-194 | the loop over the listed identifiers leaves every listed page clean and every unlisted page untouched; each write is a listed page that was dirty, written as its cleaned copy |
| `FlushDiscard.FlushPages` | micro-DB-main/src/main/java/com/slowpoke/bufferpool/BufferPool.java:182-195 | a null or empty list writes nothing and changes nothing; otherwise only `pool` changes, and its keys stay the same |
| `FlushDiscard.FlushWritesDirtyOnce` | micro-DB-main/src/main/java/com/slowpoke/bufferpool/BufferPool.java:188-193 | a page is written exactly once if it is listed (any number of times) and dirty, and never otherwise |
| `FlushDiscard.FlushPagesEffect` | micro-DB-main/src/main/java/com/slowpoke/bufferpool/BufferPool.java:187-194 | after `flushPages` every listed page is clean, unlisted pages are unchanged, the log has one write per dirty listed page and each write is the cleaned page |
| `FlushDiscard.WritesGoToOwnPage` | micro-DB-main/src/main/java/com/slowpoke/bufferpool/BufferPool.java:177-179 | when every resident page is stored under its own identifier, each write carries the page the log entry names, so the log key is also where `flushPage` writes |
| `FlushDiscard.FlushCleanIsNoop` | micro-DB-main/src/main/java/com/slowpoke/bufferpool/BufferPool.java:189 | flushing only clean pages writes nothing and leaves the pool unchanged |
| `FlushDiscard.FlushPagesIdempotent` | micro-DB-main/src/main/java/com/slowpoke/bufferpool/BufferPool.java:183-194 | calling `flushPages` again with the same list right after the first call writes nothing and changes nothing |
| `FlushDiscard.DiscardEach` | micro-DB-main/src/main/java/com/slowpoke/bufferpool/BufferPool.java:205-207 | the remove loop deletes exactly the listed identifiers from `pool` and keeps every other entry as it was |
| `FlushDiscard.DiscardPages` | micro-DB-main/src/main/java/com/slowpoke/bufferpool/BufferPool.java:200-208 | a null or empty list is a no-op; otherwise exactly the listed pages leave `pool`; frames, bits and cursors are unchanged and nothing is written |
| `FlushDiscard.DiscardThenGetPageReads` | micro-DB-main/src/main/java/com/slowpoke/bufferpool/BufferPool.java:206 | after a page is discarded, a granted `getPage` of it is a miss that returns `read(pid)`, the copy the disk function supplies, not the discarded one |
| `Scenarios.ReadEach` | micro-DB-main/src/test/java/system/DataBaseTest.java:108-112 | reading a list of resident pages one after another with `getPage` leaves the pool state exactly as it was |
| `Scenarios.ResidentPagesAreHits` | micro-DB-main/src/test/java/system/DataBaseTest.java:106-112 | for any well-formed pool and any list of its resident keys with every lock granted, reading them in turn returns `pool`'s page for each key, in order, and changes nothing |
| `Scenarios.UpdateThenFlush` | micro-DB-main/src/main/java/com/slowpoke/bufferpool/BufferPool.java:113-117 | flushing the pages a delete merged writes each dirty page exactly once, as that page with its flag cleared, and leaves the cleaned copy resident |
| `Scenarios.PoolOutgrowsCapacity` | micro-DB-main/src/main/java/com/slowpoke/bufferpool/BufferPool.java:70-79 | in a one-frame pool, two misses evict the only frame but leave both pages in `pool`, two pages over a capacity of one |
| `Scenarios.ThirdMissFillsTwoFrames` | micro-DB-main/src/main/java/com/slowpoke/bufferpool/BufferPool.java:72-78 | in a two-frame pool, the third miss clears both bits, takes frame 0 on the second pass and is also written into frame 1, so it holds both frames while all three pages stay resident |

## Left out

- Concurrency: `ConcurrentHashMap` and the unsynchronised `frames`, `victim` and `frame` fields. Only single-threaded calls are modelled.
- The lock manager's own state and blocking. Acquisition is a function that answers granted or refused, and lock release is not part of the pool.
- `Connection`'s thread-local transaction and dirty map, and the `DataBase` singleton. They are explicit parameters (`Transaction`, `RowUpdates.Connection`).
- `DbTable.insertRow` / `deleteRow`, the `Row` and table-name arguments, and the page byte layout. The table operation is the `tableStep` parameter, and page contents are opaque bytes.
- Disk failures. `readPageFromDisk` always returns a page, and `writePageToDisk` always succeeds and is recorded in the write log. The `IOException` the updates declare comes from the table layer.
- `Page` itself is not part of this model. `markDirty(null)` is taken to clear the dirty flag (`PageModel.Cleaned`). Pages are values, so the Java aliasing between the page returned and the page stored is not modelled.
- Console printing, and the commented-out evict-all loop after the scan.
- `flushAllPage`: test-only, it writes every page without looking at dirty flags. `getPoolMap` is a plain accessor.
- `BufferPool.CanEvict`: `frames.get(i).getPageNo()` throws `NullPointerException` when the victim frame is empty (for example when the pool was filled only by updates). That case is a precondition of `GetPage` and `EvictPages`, not an error result.
- `FlushDiscard.AllResident`: `pool.get(pageID).isDirty()` throws `NullPointerException` for a page that is not resident, after flushing the earlier pages in the list. Residency of every listed page is a precondition of `FlushPages`, so that partial flush is not modelled.
- `BufferPool.Init`: a negative configured capacity makes `new boolean[capacity]` throw `NegativeArraySizeException` in the constructor (BufferPool.java:46). The `nat` parameter excludes it.
- `RowUpdates.InsertRow`: the table step is assumed not to touch the pool. `dbTable.insertRow`, called at BufferPool.java:91, may itself call `getPage` and so change `pool`, `frames`, `secondChance` and `frame` before the merge; here only the dirty map passes through `tableStep`.
- `RowUpdates.DeleteRow`: the same assumption for `dbTable.deleteRow` (BufferPool.java:111). Its pool accesses before the merge are not modelled.
- `FlushDiscard.DiscardThenGetPageReads`: reads do not see earlier writes. `read` is a fixed function of the page identifier, so a page flushed and then discarded reads back as `read(pid)`, not as the copy in the write log.
- `BufferPool.Valid`: with a capacity of 0, `isFull` always holds, so the first miss runs the scan with an empty frame table, and the outer loop spins forever over an empty pass. Well-formed pools therefore require a capacity of at least 1.
- `FlushDiscard.DiscardPages`: the Javadoc says "discard pages if not dirty", but the body removes every listed page, dirty or not. The model follows the body.
- `FlushDiscard.FlushPages`: the `TransactionID` argument is accepted and ignored, as in `BufferPool.java`.
