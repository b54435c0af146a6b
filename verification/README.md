# Amazoom warehouse core, modelled in Dafny

Amazoom is a simulated automated warehouse. Robots collect the products of
customer orders from shelves and load them onto trucks at loading bays. Its
core has three parts, each modelled here as pure functions on immutable
records:

- **The warehouse ledger.**
  - `Storage.h` holds the shelf slots. They are derived from a character floor
    map, and each slot is either free or occupied.
  - `Inventory.h` is the per-product ledger. It records stored locations and
    reserved locations.
  - `warehouse.h` handles orders. It reserves the lines of an order
    (`VerifyOrder`), turns a verified order into a collection task
    (`AddOrder`), and stocks every inventory at start-up (`InitInventories`).
- **The queues.** These are the cpen333 library's bounded fifo (for threads
  and for processes), the message queue built on it, the two-slot truck
  queue, the unbounded robot order queue, and the shared-memory byte pipe.
- **The synchronisation primitives.** These are the counting semaphore, the
  gate-and-queue condition variable (`condition_base` and `event`), the
  thread and process `condition`, the fair, writer-preferring and
  reader-preferring shared mutexes, and the `rendezvous` barrier. Also
  included is the Windows command-line quoting that launches subprocesses.

Modelling conventions:

- Each critical section of the source is one transition function.
- A blocking wait becomes a precondition: the step is enabled only when it
  would not block.
- A timed wait takes a boolean that says whether its deadline had passed.
- A `try_lock` on an internal mutex takes a boolean `busy`.
- A `size_t` decrement wraps to `SizeT.MAX` at zero. Increments are unbounded.
- A named inter-process object is attached from an `Option`: `None` means no
  process has initialised it yet, so the constructor's initialisation runs.
- Each lock is also modelled together with the clients that believe they hold
  it. An invariant shows that readers and writers are kept apart.

Where the code and its documentation disagree, the model follows the code:

- `Inventory::reserve` returns `true` (1), not the number reserved.
- `aquire` removes the last *stored* location but returns the last
  *reserved* one.
- The thread `rendezvous` can strand a waiter when it is reused.

The last of these and the other defects listed under Findings are modelled
twice: once as written, with a lemma that exhibits the defect, and once
corrected, with the intended property proved.

Files: `sizet.dfy`, `wrappers.dfy`, `semaphore.dfy`, `fifo.dfy`,
`messagequeue.dfy`, `truckqueue.dfy`, `orderqueue.dfy`, `pipe.dfy`,
`storage.dfy`, `inventory.dfy`, `warehouse.dfy`, `conditionbase.dfy`,
`event.dfy`, `condition.dfy`, `fairlock.dfy`, `exclusivelock.dfy`,
`sharedlock.dfy`, `rendezvous.dfy`, `quoting.dfy`.

## Model

| member | source | states |
|---|---|---|
| SizeT.Dec | Amazoom/include/cpen333/thread/impl/shared_mutex_fair.h:104-109 | a `size_t` decrement: one less for a positive count, the largest 64-bit value for zero |
| Semaphore.Create | Amazoom/include/cpen333/thread/semaphore.h:45 | a new semaphore holds exactly the initial count it is given |
| Semaphore.Notify | Amazoom/include/cpen333/thread/semaphore.h:62-66 | `notify` makes one more resource available |
| Semaphore.Wait | Amazoom/include/cpen333/thread/semaphore.h:74-78 | `wait` can complete only while a resource is available, and then takes exactly one |
| Semaphore.TryWait | Amazoom/include/cpen333/thread/semaphore.h:87-94 | `try_wait` succeeds exactly when a resource is available; on success it is a `wait`, on failure nothing changes |
| Semaphore.WaitUntil | Amazoom/include/cpen333/thread/semaphore.h:108-137 | a timed wait returns true exactly when a resource is available and then takes one; it returns false only at the deadline, leaving the count untouched |
| Fifo.Create | Amazoom/include/cpen333/thread/fifo.h:40-46 | a new fifo is well formed and empty, every item has a consumer token, and it has the requested number of slots |
| Fifo.Attach | Amazoom/include/cpen333/process/fifo.h:57-78 | the first process to open a named fifo finds it empty and well formed; a later one sees the existing fifo unchanged |
| Fifo.PushItem | Amazoom/include/cpen333/thread/fifo.h:354-372 | `push_item` writes the value in the slot after the last item, advances the producer index with wrap-around, and keeps every held item in place |
| Fifo.Push | Amazoom/include/cpen333/thread/fifo.h:70-74 | `push` appends the value at the back of the queue, moving one token from free slots to items, and keeps every item backed by a token |
| Fifo.TryPush | Amazoom/include/cpen333/thread/fifo.h:95-103 | `try_push` succeeds exactly when a slot is free; then it is a `push`, otherwise nothing changes |
| Fifo.TryPushUntil | Amazoom/include/cpen333/thread/fifo.h:118-143 | the timed push appends exactly when a slot is free, and otherwise returns false at the deadline with the fifo unchanged |
| Fifo.PopItem | Amazoom/include/cpen333/thread/fifo.h:407-424 | `pop_item` returns the oldest item and advances only the consumer index |
| Fifo.Pop | Amazoom/include/cpen333/thread/fifo.h:153-157 | `pop` returns the oldest item and the queue keeps the rest in order; one token moves from items to free slots |
| Fifo.TryPop | Amazoom/include/cpen333/thread/fifo.h:181-189 | `try_pop` succeeds exactly when an item is available, returning what `pop` would; otherwise it returns nothing and changes nothing |
| Fifo.TryPopUntil | Amazoom/include/cpen333/thread/fifo.h:204-229 | the timed pop removes the oldest item exactly when one is available, and otherwise leaves the fifo unchanged |
| Fifo.PeekAsWritten | Amazoom/include/cpen333/thread/fifo.h:240-243 | as written, `peek` returns the oldest item and keeps the contents, but it consumes a consumer token it never gives back |
| Fifo.TryPeekUntilAsWritten | Amazoom/include/cpen333/thread/fifo.h:269-317 | as written, `try_peek` and the timed peek return the oldest item exactly when a token is available, keeping the contents, and lose the token |
| Fifo.Peek | Amazoom/include/cpen333/thread/fifo.h:240-243 | corrected, `peek` returns the oldest item and leaves the fifo exactly as it was |
| Fifo.TryPeekUntil | Amazoom/include/cpen333/thread/fifo.h:269-317 | the corrected try and timed peek report the oldest item exactly when one is available, and never change the fifo |
| Fifo.TryIsExpiredTimedTry | Amazoom/include/cpen333/thread/fifo.h:95-229 | a timed push or pop whose deadline has passed behaves exactly as the `try_` form |
| Fifo.PeekLeaksToken | Amazoom/include/cpen333/thread/fifo.h:240-243 | after one push and one as-written peek, the item is still held but cannot be popped without blocking |
| Fifo.PeekThenPop | Amazoom/include/cpen333/thread/fifo.h:153-243 | with the corrected peek, the next pop succeeds and returns the item the peek reported |
| Fifo.SizeAsWritten | Amazoom/include/cpen333/thread/fifo.h:327-335 | `size` as written equals the number of items, except for a full fifo, where it reports 0 |
| Fifo.EmptyAsWritten | Amazoom/include/cpen333/thread/fifo.h:345-349 | `empty` as written is true for an empty fifo and also for a full one |
| Fifo.Size | Amazoom/include/cpen333/thread/fifo.h:327-335 | the corrected size is the number of queued items; it agrees with the source's index difference except when the fifo is full |
| Fifo.Empty | Amazoom/include/cpen333/thread/fifo.h:345-349 | the corrected `empty` holds exactly when no item is queued |
| Fifo.FullFifoLooksEmpty | Amazoom/include/cpen333/thread/fifo.h:327-349 | a one-slot fifo holding one item reports size 0 and empty as written; the corrected size and empty report one item |
| Fifo.PushAll | Amazoom/include/cpen333/thread/fifo.h:70-74 | pushing a sequence of values keeps the fifo well formed and its capacity fixed |
| Fifo.PopN | Amazoom/include/cpen333/thread/fifo.h:153-157 | popping `n` times returns `n` items and keeps every remaining item backed by a token |
| Fifo.PushAllContents | Amazoom/include/cpen333/thread/fifo.h:70-74 | pushing a sequence appends it, in order, to the queued items, with one consumer token per value |
| Fifo.PopNContents | Amazoom/include/cpen333/thread/fifo.h:153-157 | the items `n` pops return, followed by what remains, are exactly the queued items before |
| Fifo.PushThenPopAll | Amazoom/include/cpen333/thread/fifo.h:70-157 | first in, first out: popping everything pushed into an empty fifo returns the pushed values in order and leaves it empty |
| MessageQueue.Open | Amazoom/include/cpen333/process/message_queue.h:45-46 | opening a queue no process has created gives an empty queue; opening an existing one changes nothing |
| MessageQueue.Send | Amazoom/include/cpen333/process/message_queue.h:52-54 | `send` appends the message after every waiting message |
| MessageQueue.TrySendUntil | Amazoom/include/cpen333/process/message_queue.h:65-101 | `try_send` and the timed send append exactly when there is room, and otherwise leave the queue unchanged |
| MessageQueue.Receive | Amazoom/include/cpen333/process/message_queue.h:111-125 | `receive` returns the oldest message and keeps the others in order |
| MessageQueue.TryReceiveUntil | Amazoom/include/cpen333/process/message_queue.h:136-172 | `try_receive` and the timed receive take the oldest message exactly when one is waiting, and otherwise change nothing |
| MessageQueue.TryPeekUntil | Amazoom/include/cpen333/process/message_queue.h:182-247 | the peeks return the oldest message and keep every message, but lose one consumer token each, as the fifo's peek does |
| MessageQueue.SizeAndEmpty | Amazoom/include/cpen333/process/message_queue.h:257-271 | `size` and `empty` report the message count correctly unless the queue is full, when they report 0 and empty |
| MessageQueue.SendThenReceive | Amazoom/include/cpen333/process/message_queue.h:52-125 | a message sent to an empty queue is the one received next, and the queue is empty again afterwards |
| TruckQueue.Create | Amazoom/TruckQueue.h:30-33 | a new truck queue has two free slots and no truck waiting |
| TruckQueue.Add | Amazoom/TruckQueue.h:35-48 | `add` puts the truck behind every truck already waiting; its `% 2` index arithmetic is the fifo's push |
| TruckQueue.Get | Amazoom/TruckQueue.h:50-65 | `get` hands out the truck that has waited longest and keeps the rest in order |
| TruckQueue.ArrivalOrder | Amazoom/TruckQueue.h:35-65 | two trucks added to an empty queue leave in the order they arrived |
| OrderQueue.Create | Amazoom/DynamicOrderQueue.h:17-18 | a new order queue is empty |
| OrderQueue.Add | Amazoom/DynamicOrderQueue.h:20-27 | `add` keeps every queued order in place and puts the new one last |
| OrderQueue.Get | Amazoom/DynamicOrderQueue.h:29-40 | `get` waits for an order and returns the front one; the rest stay queued in order |
| OrderQueue.AddAll | Amazoom/OrderQueue.h:20-27 | adding a sequence of orders grows the queue by its length |
| OrderQueue.GetN | Amazoom/OrderQueue.h:29-40 | `n` calls to `get` return `n` orders |
| OrderQueue.AddAllAppends | Amazoom/OrderQueue.h:20-27 | adding a sequence appends it, in order, behind the queued orders |
| OrderQueue.GetNTakesPrefix | Amazoom/OrderQueue.h:29-40 | `n` calls to `get` return the first `n` queued orders and leave the rest |
| OrderQueue.FirstInFirstOut | Amazoom/OrderQueue.h:20-40 | orders reach the robots in the order they were queued |
| Pipe.Create | Amazoom/include/cpen333/process/impl/basic_pipe.h:52-71 | a new pipe is well formed, open and empty, with room for `size` bytes |
| Pipe.Attach | Amazoom/include/cpen333/process/impl/basic_pipe.h:62-70 | the first process to open a named pipe initialises it empty and open; a later one finds it unchanged |
| Pipe.WriteByte | Amazoom/include/cpen333/process/impl/basic_pipe.h:93-122 | writing one byte to an open pipe appends it to what readers will see and uses one byte of room |
| Pipe.WriteFrom | Amazoom/include/cpen333/process/impl/basic_pipe.h:93-124 | the write loop from byte `i` appends the bytes from `i` up to the index it reached, in order, and keeps the pipe well formed, its size and its open or closed state |
| Pipe.WriteFromOutcome | Amazoom/include/cpen333/process/impl/basic_pipe.h:93-124 | the write loop completes exactly when the remaining bytes fit in the room of an open pipe; it is refused before storing anything, with the pipe unchanged, exactly when the pipe is closed; otherwise it blocks on a full pipe, having stored at least one byte if there was room for one |
| Pipe.Write | Amazoom/include/cpen333/process/impl/basic_pipe.h:87-125 | corrected `write` completes and appends all the data exactly when there is nothing to write or the data fits in the room of an open pipe; on a closed pipe it is refused before the first byte and changes nothing; otherwise it blocks on a full pipe after appending a prefix of the data, and is resumed from there |
| Pipe.WriteFromAsWritten | Amazoom/include/cpen333/process/impl/basic_pipe.h:87-125 | as written, each byte stored moves one token from the `consumer` to the `producer` semaphore and nothing but the buffer and the write index changes; the loop blocks only when no free byte is left, and is refused only at a byte where the end-of-stream test fires |
| Pipe.WriteAsWrittenStores | Amazoom/include/cpen333/process/impl/basic_pipe.h:93-124 | as written, byte `i + k` is stored `k` places on from the write index, each of those places passed the end-of-stream test, the rest of the buffer is untouched and the write index ends just past the last byte stored |
| Pipe.WriteAgreesWhileOpen | Amazoom/include/cpen333/process/impl/basic_pipe.h:87-125 | while the pipe is open the as-written write and the corrected one give the same result, blocking included |
| Pipe.ReadByte | Amazoom/include/cpen333/process/impl/basic_pipe.h:204-227 | reading one byte returns the oldest buffered byte and drops it from the contents |
| Pipe.ReadFrom | Amazoom/include/cpen333/process/impl/basic_pipe.h:193-230 | the read loop takes as many of the oldest bytes as requested and available, returns them in order, and leaves the rest |
| Pipe.Read | Amazoom/include/cpen333/process/impl/basic_pipe.h:189-231 | corrected `read` returns the smaller of the request and the buffered count, those bytes in order, and keeps the rest, so the bytes read followed by what remains are the old contents; at the end of the stream it returns 0 |
| Pipe.ReadFromAsWritten | Amazoom/include/cpen333/process/impl/basic_pipe.h:189-231 | as written, a read never copies more than requested; each byte copied moves one token from the `producer` to the `consumer` semaphore and nothing but the read index changes; a non-zero result counts exactly the bytes copied and means the request was filled or no byte was ready; a result of 0 means the end-of-stream test fired where the read stopped |
| Pipe.ReadAsWrittenCopies | Amazoom/include/cpen333/process/impl/basic_pipe.h:193-230 | as written, the `k`-th byte copied is the one `k` places on from the read index, none of those places passed the end-of-stream test, and the read index ends just past the last byte copied |
| Pipe.ReadAgreesWhileOpen | Amazoom/include/cpen333/process/impl/basic_pipe.h:189-231 | while the pipe is open the as-written read and the corrected one give the same result |
| Pipe.ReadAllFrom | Amazoom/include/cpen333/process/impl/basic_pipe.h:169-176 | the loop of corrected `read_all` loses no byte: what it has gathered followed by what remains is what it had gathered followed by the old contents; it completes only with all `n` bytes |
| Pipe.ReadAllFromOutcome | Amazoom/include/cpen333/process/impl/basic_pipe.h:169-176 | the loop completes exactly when the bytes still wanted are buffered; otherwise it has taken every buffered byte, stopping at the count gathered, and it is refused exactly when the pipe is closed and blocked otherwise |
| Pipe.ReadAll | Amazoom/include/cpen333/process/impl/basic_pipe.h:166-177 | corrected `read_all` completes exactly when `n` bytes are buffered, and then returns the oldest `n`; otherwise it takes every buffered byte, returns false on a closed pipe and blocks on an open one, to be resumed; nothing read is lost from the stream |
| Pipe.ReadAllFromAsWritten | Amazoom/include/cpen333/process/impl/basic_pipe.h:169-176 | as written, the loop keeps the bytes already counted as a prefix, never gathers more than `n`, completes only with `n`, and otherwise stops at the count gathered |
| Pipe.ReadAllAsWritten | Amazoom/include/cpen333/process/impl/basic_pipe.h:166-177 | as written, `read_all` never gathers more than `n` bytes and completes only with all `n` |
| Pipe.ReadAllFromAgreesWhileOpen | Amazoom/include/cpen333/process/impl/basic_pipe.h:169-176 | while the pipe is open the loop of `read_all` as written and the corrected one give the same result |
| Pipe.ReadAllAgreesWhileOpen | Amazoom/include/cpen333/process/impl/basic_pipe.h:166-177 | while the pipe is open `read_all` as written and the corrected one give the same result |
| Pipe.Transfer | Amazoom/include/cpen333/process/impl/basic_pipe.h:87-177 | a writer and a `read_all` of as many bytes taking turns on an open pipe, each resumed where it blocked, deliver exactly the data written, in order, however long the data is against the buffer |
| Pipe.AvailableAsWritten | Amazoom/include/cpen333/process/impl/basic_pipe.h:256-266 | `available` as written, on an open or a closed pipe, is the number of buffered bytes, except that a full pipe reports 0 |
| Pipe.Available | Amazoom/include/cpen333/process/impl/basic_pipe.h:256-266 | the corrected `available` is the number of buffered bytes |
| Pipe.IsOpen | Amazoom/include/cpen333/process/impl/basic_pipe.h:273-276 | `open` is true exactly when the pipe has not been closed |
| Pipe.Close | Amazoom/include/cpen333/process/impl/basic_pipe.h:285-304 | `close` returns true only for the first call; the pipe is then closed and keeps every buffered byte |
| Pipe.CloseDrains | Amazoom/include/cpen333/process/impl/basic_pipe.h:87-304 | after `close`, writes are refused, the buffered bytes can still be read in full, and a further read reports the end of the stream |
| Pipe.AbClosed | Amazoom/include/cpen333/process/impl/basic_pipe.h:285-304 | a closed four-byte pipe holding two bytes is a well-formed pipe state |
| Pipe.ReadLosesBytesAtEof | Amazoom/include/cpen333/process/impl/basic_pipe.h:209-215 | as written, a 5-byte read of a closed pipe holding 2 bytes copies and consumes both, yet returns 0; the corrected read returns 2 |
| Pipe.ReadAllLosesBytes | Amazoom/include/cpen333/process/impl/basic_pipe.h:166-177 | as written, `read_all` of 5 bytes from a closed pipe holding 2 returns false having counted none of them, because its first read copied both and returned 0; the corrected `read_all` hands back both bytes before it returns false |
| Pipe.ClosedAtZero | Amazoom/include/cpen333/process/impl/basic_pipe.h:285-304 | an empty pipe closed at write index 0 is a well-formed closed state |
| Pipe.ClosedAtZeroIsReachable | Amazoom/include/cpen333/process/impl/basic_pipe.h:52-71 | closing a fresh pipe of any size leaves both indices and both end marks at 0 |
| Pipe.ClosedAtZeroIsClosedFresh | Amazoom/include/cpen333/process/impl/basic_pipe.h:285-304 | `ClosedAtZero` is exactly the state reached by closing a fresh four-byte pipe |
| Pipe.CloseAtIndexZeroReadsPastEnd | Amazoom/include/cpen333/process/impl/basic_pipe.h:209-215 | as written, a pipe closed at index 0 never reports the end of the stream, and a read returns a byte nobody wrote; the corrected read returns 0 |
| Pipe.CloseAtIndexZeroAcceptsWrite | Amazoom/include/cpen333/process/impl/basic_pipe.h:101-109 | as written, a pipe closed at index 0 accepts a write after `close`; the corrected write refuses it |
| Pipe.FullClosed | Amazoom/include/cpen333/process/impl/basic_pipe.h:285-304 | a full two-byte pipe closed with both indices at 1 is a well-formed closed state |
| Pipe.AbClosedIsReachable | Amazoom/include/cpen333/process/impl/basic_pipe.h:87-304 | `AbClosed` is what a fresh four-byte pipe becomes after writing two bytes and closing, so the reads past the end that follow from it are reachable |
| Pipe.NineTwoThreeTrace | Amazoom/include/cpen333/process/impl/basic_pipe.h:87-230 | on a fresh pipe of `n >= 2` bytes, `write` of the byte 9 completes, a one-byte `read` returns exactly that byte and empties the pipe, and `write` of 2 and 3 then completes (filling the pipe when `n == 2`), each step ending in the named state |
| Pipe.FullClosedIsReachable | Amazoom/include/cpen333/process/impl/basic_pipe.h:285-304 | closing the full two-byte pipe that `NineTwoThreeTrace` ends in succeeds and gives exactly `FullClosed`, the state from which the early end of the stream is shown |
| Pipe.FullPipeEofTooEarly | Amazoom/include/cpen333/process/impl/basic_pipe.h:209-215 | as written, a pipe closed while full reports the end of the stream before either buffered byte is read; the corrected read returns both |
| Pipe.FullPipeLooksEmpty | Amazoom/include/cpen333/process/impl/basic_pipe.h:256-266 | a pipe filled by one write of its own size holds that data, yet `available` as written reports 0; the corrected count is the data length |
| Inventory.Create | Amazoom/Inventory.h:24 | a new inventory has the product's ID and no stored or reserved location |
| Inventory.Store | Amazoom/Inventory.h:26-29 | `store(location)` appends the location to the stored list, adds it to the ledger and touches nothing else |
| Inventory.StoreAll | Amazoom/Inventory.h:31-38 | `store(locations)` appends the whole vector, in order, and the ledger gains exactly those locations |
| Inventory.StoreAllIsRepeatedStore | Amazoom/Inventory.h:26-38 | storing a vector is the same as storing its elements one after another |
| Inventory.Reserve | Amazoom/Inventory.h:48-61 | `reserve` is all or nothing: it fails (returns 0, no change) exactly when the quantity is negative or more than is stored; otherwise it moves the last `quantity` stored locations, last first, onto the reserved list and returns 1 |
| Inventory.ReserveConserves | Amazoom/Inventory.h:48-61 | a reservation neither creates nor loses a location; it moves exactly `quantity` of them from stored to reserved |
| Inventory.Acquire | Amazoom/Inventory.h:63-68 | `aquire` returns the last reserved location but removes the last stored one, leaving the reserved list as it was |
| Inventory.AcquireRepeatsLocation | Amazoom/Inventory.h:63-78 | two `aquire` calls in a row hand out the same location, and only the stored count drops |
| Storage.InvalidLocation | Amazoom/Storage.h:58-62 | the default-constructed location is not valid |
| Storage.GetFreeShelf | Amazoom/Storage.h:121-140 | with no free slot it returns the invalid location and changes nothing; otherwise the slot at `rand() % free` moves from free to the end of occupied, and no slot is created or lost |
| Storage.FindFirst | Amazoom/Storage.h:148-156 | the search stops at the first occupied slot equal to the location, or reports that there is none |
| Storage.FreeShelf | Amazoom/Storage.h:143-159 | `FreeShelf` succeeds exactly for a valid location that is occupied; it moves the first equal occupied slot to the end of the free list; on failure nothing changes and no slot is ever lost |
| Storage.GetThenFreeRestoresCounts | Amazoom/Storage.h:121-159 | taking a valid free slot and freeing it again succeeds and restores both counts and the set of free slots |
| Storage.CellShelves | Amazoom/Storage.h:238-243 | one storage cell contributes six slots at its row and column, with shelf indices 0 to 5 |
| Storage.InitializeShelfLocations | Amazoom/Storage.h:196-236 | the row-major scan of the floor yields exactly the reference list of slots: left storage uses the cell to its left, right storage the cell to its right, and bays their own cell |
| Storage.RowShelvesShape | Amazoom/Storage.h:196-243 | every storage character in a row yields exactly six slots, all in that row, with shelf indices 0 to 5 |
| Warehouse.FirstShort | Amazoom/warehouse.h:58-62 | the first line whose reservation did not return its quantity, or the end when every line was granted |
| Warehouse.VerifyOrderAsWritten | Amazoom/warehouse.h:51-81 | as written, `VerifyOrder` succeeds exactly when every line is granted in full; on failure it unreserves every earlier line with the failing line's quantity |
| Warehouse.VerifyOrder | Amazoom/warehouse.h:51-81 | corrected, `VerifyOrder` succeeds exactly when every line is granted in full; on failure it unreserves every earlier line with that line's own quantity |
| Warehouse.NetOfGrantedReserves | Amazoom/warehouse.h:58-77 | fully granted reserve calls add exactly the requested units of each product |
| Warehouse.NetOfIntendedRollback | Amazoom/warehouse.h:65-71 | the intended rollback gives back exactly the units the earlier lines requested |
| Warehouse.RollbackIsExact | Amazoom/warehouse.h:51-81 | after a failed corrected `VerifyOrder`, every product's reserved count is where it was before the call |
| Warehouse.RollbackAsWrittenIsNotExact | Amazoom/warehouse.h:65-71 | as written, reserving 1 unit of product 1 and then failing on 2 units of product 2 leaves product 1 one unit short |
| Warehouse.AcquireStep | Amazoom/warehouse.h:91-101 | one `aquire` for a line returns its product's last reserved shelf, and each inventory has lost one stored location per line of its product so far |
| Warehouse.AddOrder | Amazoom/warehouse.h:87-106 | the added order is ready for collection with task collect-and-load; each line holds its product's last reserved shelf when that is valid; the order is appended and indexed by ID; every inventory loses one stored location per line of its product; storage is untouched |
| Warehouse.AcquireAll | Amazoom/warehouse.h:91-101 | the loop makes one `aquire` per line, in order, and records every valid location returned |
| Warehouse.StockInventory | Amazoom/warehouse.h:125-131 | one inventory receives at most 20 new shelves, all valid, appended after its old ones; no slot is created or lost; with 20 valid free shelves it gets all 20; when every free shelf is valid, the shelves it receives are exactly those appended to the occupied list, in order, and they are taken out of the free list, so none is stocked twice |
| Warehouse.InitInventories | Amazoom/warehouse.h:118-135 | each inventory keeps its ID, reservations and earlier locations, and gains at most 20 valid shelves; no slot is created or lost; with enough valid free shelves every inventory gains exactly 20; when every free shelf is valid, the shelves gained, inventory by inventory, are exactly those appended to the occupied list and are taken out of the free list, so no shelf goes to two inventories |
| ConditionBase.Create | Amazoom/include/cpen333/thread/event.h:71 | a new condition has all counters at zero, the gate open and nobody asleep |
| ConditionBase.Attach | Amazoom/include/cpen333/process/impl/condition_base.h:100-115 | the counters are zeroed only by the first process to open the condition; later ones find it unchanged |
| ConditionBase.Enter | Amazoom/include/cpen333/process/impl/condition_base.h:274-278 | a waiter passes the open gate and counts itself blocked; nothing else changes |
| ConditionBase.Sleep | Amazoom/include/cpen333/process/impl/condition_base.h:285-291 | a sleeper takes a queue token when there is one; it reports a timeout exactly when there is none, and then changes nothing |
| ConditionBase.Leave | Amazoom/include/cpen333/process/impl/condition_base.h:293-328 | a woken waiter consumes one signal if any is outstanding; a timed-out one then leaves `blocked`, or counts as gone when `blocked` is already 0, and the last one reopens the gate when others are still blocked, and otherwise collects the gone waiters to drain; a waiter that finds no signal counts itself gone, and at the limit `gone` is folded into `blocked` and reset; either way `blocked` less `gone` (and less the gone count collected) drops by exactly one for a timed-out or signal-less waiter and is otherwise unchanged |
| ConditionBase.LeaveReportsLastSignal | Amazoom/include/cpen333/process/impl/condition_base.h:296-317 | the waiter that consumes the last signal either reports it or has handed the gate to a waiter still blocked |
| ConditionBase.Finish | Amazoom/include/cpen333/process/impl/condition_base.h:330-339 | only the last signalled waiter acts: it drains one queue token per gone waiter and reopens the gate |
| ConditionBase.Notify | Amazoom/include/cpen333/process/impl/condition_base.h:208-256 | `notify` posts one queue token per signal; notify-one signals at most one waiter; a broadcast leaves nobody blocked; with nobody to signal it changes nothing |
| ConditionBase.CloseGate | Amazoom/include/cpen333/process/impl/condition_base.h:230-236 | the notifier closes the gate and forgets the gone waiters, which are no longer counted as blocked |
| ConditionBase.HandOut | Amazoom/include/cpen333/process/impl/condition_base.h:237-255 | every blocked waiter (broadcast) or one is moved to the signalled count, with one queue token per signal |
| ConditionBase.NotifyOne | Amazoom/include/cpen333/process/impl/condition_base.h:170-172 | `notify_one` is a non-broadcast notify and signals at most one waiter |
| ConditionBase.NotifyAll | Amazoom/include/cpen333/process/impl/condition_base.h:179-181 | `notify_all` is a broadcast notify; on an idle condition with waiters it signals all of them |
| ConditionBase.WakeAllReopensGate | Amazoom/include/cpen333/process/impl/condition_base.h:285-339 | `k` signalled waiters waking one after another all succeed and return the condition to idle with the gate open |
| ConditionBase.NotifyAllWakesEveryone | Amazoom/include/cpen333/process/impl/condition_base.h:179-339 | `notify_all` with `n` waiters posts `n` tokens; every waiter wakes with success and the condition returns to idle |
| ConditionBase.NotifyOneWakesOne | Amazoom/include/cpen333/process/impl/condition_base.h:170-339 | `notify_one` with `n` waiters wakes exactly one, and the other `n - 1` stay waiting behind an open gate |
| ConditionBase.LoneWaiterTimesOut | Amazoom/include/cpen333/process/impl/condition_base.h:267-342 | a lone waiter whose deadline passes with no signal reports a timeout and counts itself gone |
| ConditionBase.TimedOutWaiterIsNotSignalled | Amazoom/include/cpen333/process/impl/condition_base.h:208-256 | a waiter that has gone is not signalled by a later notify |
| ConditionBase.GoneWaiterIsForgotten | Amazoom/include/cpen333/process/impl/condition_base.h:230-246 | after a waiter has gone, the next `notify_all` forgets it and signals only the waiter really there |
| Event.Wait | Amazoom/include/cpen333/thread/event.h:199-274 | an entered waiter succeeds exactly when a queue token is there; it consumes one outstanding signal; a waiter that times out with no signal counts itself gone |
| Event.SignalledWaiterSucceeds | Amazoom/include/cpen333/thread/event.h:149-274 | after `notify_all`, a waiter succeeds even when its deadline has already passed |
| Event.UnsignalledWaiterTimesOut | Amazoom/include/cpen333/thread/event.h:199-274 | a waiter whose deadline passes before any notify reports failure and counts itself gone |
| Condition.Create | Amazoom/include/cpen333/thread/condition.h:29 | a new condition is open exactly when constructed with `true` |
| Condition.Wait | Amazoom/include/cpen333/thread/condition.h:46-50 | `wait` completes only once the gate is open, and leaves it open |
| Condition.WaitUntil | Amazoom/include/cpen333/thread/condition.h:79-86 | `wait_until` returns true exactly when it got the mutex and the gate is open |
| Condition.Notify | Amazoom/include/cpen333/thread/condition.h:94-102 | `notify` opens the gate |
| Condition.Reset | Amazoom/include/cpen333/thread/condition.h:110-114 | `reset` closes the gate |
| Condition.NotifyThenResetCycle | Amazoom/include/cpen333/thread/condition.h:46-114 | after `notify`, waits pass and timed waits succeed whenever they get the mutex; after a `reset`, a timed wait at its deadline fails |
| ProcessCondition.Attach | Amazoom/include/cpen333/process/condition.h:45-57 | the first process to open the condition stores the given value over an idle base; later ones find it unchanged |
| ProcessCondition.Wait | Amazoom/include/cpen333/process/condition.h:66-71 | `wait` completes once it reads the value as true, and changes nothing |
| ProcessCondition.WaitUntil | Amazoom/include/cpen333/process/condition.h:99-114 | `wait_until` fails when the mutex is not acquired, succeeds at once on a true value, succeeds later only if some round read true, and keeps waiting only while no round was signalled or late |
| ProcessCondition.WaitUntilEndsAtFirstSignal | Amazoom/include/cpen333/process/condition.h:99-114 | the timed wait loop stops at the first signalled round and returns the value it read then |
| ProcessCondition.Notify | Amazoom/include/cpen333/process/condition.h:122-130 | `notify` sets the value to true and signals every waiter blocked in the base |
| ProcessCondition.Reset | Amazoom/include/cpen333/process/condition.h:138-142 | `reset` sets the value to false and leaves the base alone |
| ProcessCondition.NotifyReleasesAll | Amazoom/include/cpen333/process/condition.h:66-130 | with `n` processes waiting on a closed condition, `notify` wakes every one, each reads true, and the base returns to idle |
| FairLock.Create | Amazoom/include/cpen333/thread/impl/shared_mutex_fair.h:46-58 | a new lock has both batches empty, batch 0 current, and no writer holding or waiting |
| FairLock.Attach | Amazoom/include/cpen333/process/impl/shared_mutex_fair.h:58-74 | the state is zeroed only by the first process to open the lock; later ones find it unchanged |
| FairLock.LockShared | Amazoom/include/cpen333/thread/impl/shared_mutex_fair.h:73-84 | a reader joins the current batch when no writer is waiting, and the next batch otherwise; only that batch's count grows |
| FairLock.TryLockSharedUntilFinish | Amazoom/include/cpen333/thread/impl/shared_mutex_fair.h:200-221 | a queued reader succeeds exactly when its batch has become current; otherwise at the deadline it takes itself out of its batch |
| FairLock.TryLockSharedAsWritten | Amazoom/include/cpen333/thread/impl/shared_mutex_fair.h:89-99 | as written, `try_lock_shared` succeeds when no writer holds the lock but counts the reader in no batch |
| FairLock.TryLockShared | Amazoom/include/cpen333/thread/impl/shared_mutex_fair.h:89-99 | corrected, `try_lock_shared` succeeds exactly when no writer holds the lock, and then counts the reader in the current batch |
| FairLock.UnlockShared | Amazoom/include/cpen333/thread/impl/shared_mutex_fair.h:104-109 | `unlock_shared` takes one reader off the current batch, with `size_t` wrap-around |
| FairLock.Announce | Amazoom/include/cpen333/thread/impl/shared_mutex_fair.h:114-121 | a writer in `lock` first counts itself as waiting |
| FairLock.Acquire | Amazoom/include/cpen333/thread/impl/shared_mutex_fair.h:114-121 | a writer proceeds only when no writer holds the lock and the current batch has drained, and then excludes every other writer |
| FairLock.TryLockUntilFinish | Amazoom/include/cpen333/thread/impl/shared_mutex_fair.h:167-186 | a timed writer takes the lock exactly when it may proceed, and otherwise at the deadline withdraws its announcement |
| FairLock.TryLock | Amazoom/include/cpen333/thread/impl/shared_mutex_fair.h:126-141 | `try_lock` succeeds exactly when the mutex is free and a writer could proceed without waiting, and otherwise changes nothing |
| FairLock.Unlock | Amazoom/include/cpen333/thread/impl/shared_mutex_fair.h:146-153 | `unlock` releases the writer, counts one writer fewer and makes the other batch current |
| FairLock.TimedGiveUpUndoes | Amazoom/include/cpen333/thread/impl/shared_mutex_fair.h:167-221 | a writer or queued reader that gives up at its deadline leaves the lock exactly as before it announced itself |
| FairLock.UnlockAdmitsQueuedBatch | Amazoom/include/cpen333/thread/impl/shared_mutex_fair.h:73-153 | a reader that queued behind a waiting writer cannot proceed until that writer's `unlock`, which admits it |
| FairLock.Next | Amazoom/include/cpen333/thread/impl/shared_mutex_fair.h:73-221 | a client step changes the current batch only when a writer releases the lock, and then to the other batch |
| FairLock.Init | Amazoom/include/cpen333/thread/impl/shared_mutex_fair.h:46-58 | a fresh lock with no clients satisfies the counter agreement and is safe |
| FairLock.InvIsSafe | Amazoom/include/cpen333/thread/impl/shared_mutex_fair.h:73-153 | when the counters agree with the clients, no reader holds the lock while a writer does |
| FairLock.NextPreservesInv | Amazoom/include/cpen333/thread/impl/shared_mutex_fair.h:73-221 | every client step, with the corrected `try_lock_shared`, keeps the counters in agreement and so keeps readers and writers apart |
| FairLock.TryLockSharedAdmitsWriter | Amazoom/include/cpen333/thread/impl/shared_mutex_fair.h:89-121 | as written, a reader that took the lock by `try_lock_shared` does not stop a writer, and its `unlock_shared` wraps a batch count to the maximum, which then blocks writers |
| ExclusiveLock.Create | Amazoom/include/cpen333/thread/impl/shared_mutex_exclusive.h:42-49 | a new lock is free, with no readers, no writers and the gate open |
| ExclusiveLock.Attach | Amazoom/include/cpen333/process/impl/shared_mutex_exclusive.h:61-76 | the counts are zeroed only by the first process to open the lock; later ones find it unchanged |
| ExclusiveLock.RegisterReader | Amazoom/include/cpen333/thread/impl/shared_mutex_exclusive.h:66-75 | a reader counts itself in; the first reader also takes the writers' lock |
| ExclusiveLock.TryLockShared | Amazoom/include/cpen333/thread/impl/shared_mutex_exclusive.h:85-106 | `try_lock_shared` succeeds exactly when no writer has closed the gate, the mutex is free and the reader may register; otherwise nothing changes |
| ExclusiveLock.TryLockSharedUntil | Amazoom/include/cpen333/thread/impl/shared_mutex_exclusive.h:264-288 | the timed form succeeds exactly when the gate is open, it gets the mutex and it may register; otherwise nothing changes |
| ExclusiveLock.TimedTryIsTry | Amazoom/include/cpen333/thread/impl/shared_mutex_exclusive.h:85-288 | a timed shared lock whose deadline has passed decides exactly as `try_lock_shared` |
| ExclusiveLock.UnlockShared | Amazoom/include/cpen333/thread/impl/shared_mutex_exclusive.h:113-118 | a reader leaves, and the last one returns the writers' lock |
| ExclusiveLock.Announce | Amazoom/include/cpen333/thread/impl/shared_mutex_exclusive.h:126-137 | a writer counts itself in, and the first writer closes the gate to new readers |
| ExclusiveLock.AcquireGlobal | Amazoom/include/cpen333/thread/impl/shared_mutex_exclusive.h:126-137 | a writer proceeds only once it takes the writers' lock |
| ExclusiveLock.Withdraw | Amazoom/include/cpen333/thread/impl/shared_mutex_exclusive.h:172-181 | a writer leaves the count, and the gate opens when no writer is left |
| ExclusiveLock.Unlock | Amazoom/include/cpen333/thread/impl/shared_mutex_exclusive.h:172-181 | `unlock` returns the writers' lock and withdraws the writer, reopening the gate for readers when it was the last |
| ExclusiveLock.TryLockAsWritten | Amazoom/include/cpen333/thread/impl/shared_mutex_exclusive.h:146-167 | as written, `try_lock` sets the writer count to 1 on success, whatever writers were already waiting |
| ExclusiveLock.TryLock | Amazoom/include/cpen333/thread/impl/shared_mutex_exclusive.h:146-167 | corrected, `try_lock` succeeds exactly when the mutex and the writers' lock are free, and counts itself in with the writers already waiting |
| ExclusiveLock.TryLockUntilFinishAsWritten | Amazoom/include/cpen333/thread/impl/shared_mutex_exclusive.h:210-235 | as written, the timed lock always reports success, even when it withdrew at its deadline |
| ExclusiveLock.TryLockUntilFinish | Amazoom/include/cpen333/thread/impl/shared_mutex_exclusive.h:210-235 | corrected, the timed lock reports success exactly when it took the writers' lock, and otherwise withdraws |
| ExclusiveLock.TimedGiveUpUndoes | Amazoom/include/cpen333/thread/impl/shared_mutex_exclusive.h:210-235 | a writer that gives up at its deadline leaves the lock as it found it, gate included |
| ExclusiveLock.Next | Amazoom/include/cpen333/thread/impl/shared_mutex_exclusive.h:66-288 | a client step admits at most one more reader |
| ExclusiveLock.Init | Amazoom/include/cpen333/thread/impl/shared_mutex_exclusive.h:42-49 | a fresh lock with no clients satisfies the counter agreement and is safe |
| ExclusiveLock.InvIsSafe | Amazoom/include/cpen333/thread/impl/shared_mutex_exclusive.h:66-181 | when the counters agree with the clients there is at most one writer, never beside a reader, and a waiting writer keeps new readers out |
| ExclusiveLock.NextPreservesInv | Amazoom/include/cpen333/thread/impl/shared_mutex_exclusive.h:66-288 | every client step, with the corrected `try_lock` and `try_lock_until`, keeps the counters in agreement and so keeps the lock safe |
| ExclusiveLock.TryLockOverWaiter | Amazoom/include/cpen333/thread/impl/shared_mutex_exclusive.h:146-167 | the state after writer B's as-written `try_lock` succeeds over writer A's waiting announcement |
| ExclusiveLock.TryLockLosesWaitingWriter | Amazoom/include/cpen333/thread/impl/shared_mutex_exclusive.h:146-181 | as written, when B unlocks, the gate opens to readers although A still waits, and A's later unlock wraps the writer count |
| ExclusiveLock.TryLockKeepsWaitingWriter | Amazoom/include/cpen333/thread/impl/shared_mutex_exclusive.h:146-181 | with the corrected `try_lock` the gate stays closed while A waits, and once both have left the lock is back at its initial state |
| ExclusiveLock.TryLockUntilClaimsHeldLock | Amazoom/include/cpen333/thread/impl/shared_mutex_exclusive.h:210-235 | as written, while A holds the lock, B's timed lock times out yet reports success; the corrected form reports failure |
| SharedLock.Create | Amazoom/include/cpen333/thread/impl/shared_mutex_shared.h:37 | a new lock is free with no readers |
| SharedLock.Attach | Amazoom/include/cpen333/process/impl/shared_mutex_shared.h:55-66 | the reader count is zeroed only by the first process to open the lock; later ones find it unchanged |
| SharedLock.LockShared | Amazoom/include/cpen333/thread/impl/shared_mutex_shared.h:51-57 | a reader counts itself in; only the first takes the writers' lock |
| SharedLock.TryLockShared | Amazoom/include/cpen333/thread/impl/shared_mutex_shared.h:62-79 | `try_lock_shared` succeeds exactly when the mutex is free and the reader may join, and otherwise changes nothing |
| SharedLock.TryLockSharedUntil | Amazoom/include/cpen333/thread/impl/shared_mutex_shared.h:140-157 | the timed form succeeds exactly when it gets the mutex and the reader may join, and otherwise changes nothing |
| SharedLock.UnlockShared | Amazoom/include/cpen333/thread/impl/shared_mutex_shared.h:84-89 | a reader leaves, and the last one returns the writers' lock |
| SharedLock.Lock | Amazoom/include/cpen333/thread/impl/shared_mutex_shared.h:94-96 | a writer proceeds only by taking the writers' lock |
| SharedLock.TryLock | Amazoom/include/cpen333/thread/impl/shared_mutex_shared.h:101-103 | `try_lock` succeeds exactly when the writers' lock is free |
| SharedLock.TryLockUntil | Amazoom/include/cpen333/thread/impl/shared_mutex_shared.h:124-126 | the timed lock succeeds exactly when the writers' lock is free by the deadline |
| SharedLock.Unlock | Amazoom/include/cpen333/thread/impl/shared_mutex_shared.h:108-110 | `unlock` returns the writers' lock |
| SharedLock.LockUnlockRoundTrip | Amazoom/include/cpen333/thread/impl/shared_mutex_shared.h:51-110 | a reader or writer that locks and unlocks leaves the lock as it found it |
| SharedLock.Next | Amazoom/include/cpen333/thread/impl/shared_mutex_shared.h:51-157 | a client step adds at most one reader and at most one writer |
| SharedLock.Init | Amazoom/include/cpen333/thread/impl/shared_mutex_shared.h:37 | a fresh lock with no clients satisfies the counter agreement and is safe |
| SharedLock.InvIsSafe | Amazoom/include/cpen333/thread/impl/shared_mutex_shared.h:51-110 | when the counters agree with the clients, readers and writers exclude each other, and while any reader holds the lock another reader always gets in and no writer does |
| SharedLock.NextPreservesInv | Amazoom/include/cpen333/thread/impl/shared_mutex_shared.h:51-157 | every client step keeps the counters in agreement and so keeps the lock safe |
| Rendezvous.Create | Amazoom/include/cpen333/thread/rendezvous.h:33 | a new barrier waits for `size` arrivals, with none departed |
| Rendezvous.Depart | Amazoom/include/cpen333/thread/rendezvous.h:66-73 | a departing thread is counted, and the last one resets the barrier to its initial state |
| Rendezvous.Arrive | Amazoom/include/cpen333/thread/rendezvous.h:49-64 | an arrival passes at once (releasing the others) exactly when it is the last one needed; otherwise it counts down and waits |
| Rendezvous.Next | Amazoom/include/cpen333/thread/rendezvous.h:49-74 | a barrier step never changes the group size |
| Rendezvous.InitInv | Amazoom/include/cpen333/thread/rendezvous.h:33 | a fresh barrier with nobody waiting satisfies the round accounting |
| Rendezvous.NextPreservesInv | Amazoom/include/cpen333/thread/rendezvous.h:49-74 | with arrivals held until the previous round has left, every step keeps the round accounting, and a full set of waiters is always released |
| Rendezvous.Stranded | Amazoom/include/cpen333/thread/rendezvous.h:49-74 | the state reached by four as-written arrivals of a two-thread barrier |
| Rendezvous.ReuseStrandsWaiter | Amazoom/include/cpen333/thread/rendezvous.h:49-74 | as written, a thread that re-enters before the round is over counts towards the old round, and two threads end up waiting with no release to come |
| ProcessRendezvous.Attach | Amazoom/include/cpen333/process/rendezvous.h:39-52 | the first process to open the barrier sets its size and count, with no token posted; later ones find it unchanged |
| ProcessRendezvous.Arrive | Amazoom/include/cpen333/process/rendezvous.h:60-80 | the last arrival resets the count and posts `size - 1` tokens and passes; an earlier one counts down and sleeps |
| ProcessRendezvous.Release | Amazoom/include/cpen333/process/rendezvous.h:60-80 | the number of notifications is `size - 1`, computed in `size_t` |
| ProcessRendezvous.Wake | Amazoom/include/cpen333/process/rendezvous.h:60-80 | a sleeper wakes only by taking a token |
| ProcessRendezvous.AttachInv | Amazoom/include/cpen333/process/rendezvous.h:39-52 | a freshly attached barrier with nobody asleep satisfies the sleeper accounting |
| ProcessRendezvous.ArriveKeepsInv | Amazoom/include/cpen333/process/rendezvous.h:60-80 | an arrival keeps every sleeper either waiting for its round to fill or backed by a posted token |
| ProcessRendezvous.WakeKeepsInv | Amazoom/include/cpen333/process/rendezvous.h:60-80 | a sleeper waking keeps the sleeper accounting |
| ProcessRendezvous.FullRoundWakesAll | Amazoom/include/cpen333/process/rendezvous.h:60-80 | the last of `size` arrivals posts exactly enough tokens to wake the other `size - 1` and resets the count for the next round |
| ProcessRendezvous.SizeOneIsNoOp | Amazoom/include/cpen333/process/rendezvous.h:39-80 | with one participant the lone arrival passes and posts nothing |
| Quoting.AppendArgument | Amazoom/include/cpen333/process/impl/windows/subprocess.h:235-274 | `append_argument` appends the quoted form of the argument and keeps the command line before it |
| Quoting.AppendQuoted | Amazoom/include/cpen333/process/impl/windows/subprocess.h:238-273 | the quoting branch appends an opening quote, the escaped argument and a closing quote |
| Quoting.EscapeBody | Amazoom/include/cpen333/process/impl/windows/subprocess.h:240-272 | the escaping loop produces the escaped body: backslash runs doubled before a quote (plus one) and at the end, and kept as they are elsewhere |
| Quoting.SkipSlashes | Amazoom/include/cpen333/process/impl/windows/subprocess.h:243-246 | the inner loop stops at the first non-backslash or the end, having counted the run it skipped |
| Quoting.CreateCommand | Amazoom/include/cpen333/process/impl/windows/subprocess.h:277-285 | `create_windows_command` joins the quoted arguments, in order, with single spaces |
| Quoting.CommandFront | Amazoom/include/cpen333/process/impl/windows/subprocess.h:277-285 | the command line is the first quoted argument, a space, and the command line of the rest |
| Quoting.UnescapeEscape | Amazoom/include/cpen333/process/impl/windows/subprocess.h:240-272 | reading back an escaped body up to its closing quote gives the original argument and leaves what follows |
| Quoting.ParseQuote | Amazoom/include/cpen333/process/impl/windows/subprocess.h:235-274 | one quoted argument, followed by nothing or a space, reads back as itself |
| Quoting.CommandRoundTrip | Amazoom/include/cpen333/process/impl/windows/subprocess.h:235-285 | the command line built from a non-empty argument vector is split by the Windows rules back into exactly that vector |

## Left out

- Threads run one critical section at a time. Each operation is one atomic
  step, or a few steps split where the source may block. Interleavings inside
  a section are not modelled. An example is the gap in the writer-preferring
  lock's `unlock` (Amazoom/include/cpen333/thread/impl/shared_mutex_exclusive.h:172-181), which posts
  the global semaphore before it takes the internal mutex to decrement the
  writer count.
- Integers are unbounded. Increments of `size_t` and `long` counters never
  wrap in the model, because no reachable count comes near 2^63. Decrements
  that can reach zero wrap explicitly.
- ConditionBase.Leave: the fold-back of gone waiters at
  `numeric_limits<long>::max() / 2` assumes a 64-bit `long`.
- Named resources are simplified. Opening one is `Attach` from an `Option`.
  The named semaphores and mutexes inside a process object keep whatever
  state they have. `unlink` and the destructors are not modelled, because
  they only remove names.
- Message-queue contracts are stated for the fifo model. The process fifo's
  layout in shared memory, and its `Attach`, follow the thread fifo.
- Memory is not modelled. This covers the thread fifo's typo in `empty()`
  (`info_->` on a struct) and its destructor's `delete []`, which are not
  logic.
- I/O is left out. That means console output, `printFloor`, `toString`,
  reading the floor map and the product file (`LoadFloor`,
  `InitProductInfo`), and the web server.
- Clocks are left out. A timed wait is given whether its deadline had passed.
- `rand()` is left out. `GetFreeShelf` takes the random number as a parameter;
  `InitInventories` takes a function from call number to random number.
- Warehouse.VerifyOrder: `Reserve` and `UnReserve` of the `Inventory` type
  that warehouse.h calls are not part of this model. Inventory.h defines only
  `reserve`. The counts those calls return are a parameter, and the model
  records the calls as a trace.
- Warehouse.AddOrder: the order weight, the product weights and the
  `Order_ptr` handle table are not modelled. The ID map stands for the table.
- Warehouse.AddOrder: requires `Acquirable`, a stored location left for
  every `aquire` call. Without one, `aquire` calls `pop_back` on an empty
  vector (Amazoom/Inventory.h:66), which is undefined behaviour. That happens
  when a verified order has reserved the last units of a product, because
  `reserve` already moved them out of `stored`. The model says nothing about
  that case.
- Pipe.WriteFromAsWritten and Pipe.ReadFromAsWritten require a non-empty
  buffer. A zero-sized pipe never lets either loop run.
- Pipe.WriteAsWrittenStores and Pipe.ReadAsWrittenCopies describe the buffer
  only for a call that moves at most `size` bytes. A well-formed pipe never
  lets one call move more, because each byte takes a semaphore token and
  there are at most `size` of them.
- Pipe.Write and Pipe.ReadAll: a call that would wait returns `Blocked` with
  the index it reached. The wait and the wake-up are not modelled; resuming
  is a new call of `Pipe.WriteFrom` or `Pipe.ReadAllFrom` from that index.
- The fair lock's `next_batch` field is written and never read, so it is not
  kept.
- Quoting.CommandRoundTrip: the reading side is a reference parser for the
  Windows rules, restricted to what this quoting produces. A quoted part ends
  its argument. Quotes in the middle of a bare word are not modelled.
- Robots, trucks, loading bays, the managers' UI, sockets and subprocess
  creation outside the quoting are not part of the core.

## Findings

| source | as written | input that shows it | evidently intended | confidence | as-written member | corrected member |
|---|---|---|---|---|---|---|
| Amazoom/warehouse.h:65-66 | the rollback unreserves each earlier line with the failing line's quantity | line 1: 1 unit of product 1 granted; line 2: 2 units of product 2 refused; product 1 is unreserved by 2 | each earlier line unreserves its own quantity, so a failed verification changes no reservation | high (not executed) | Warehouse.RollbackAsWrittenIsNotExact | Warehouse.RollbackIsExact |
| Amazoom/include/cpen333/thread/fifo.h:240-243 | `peek` waits on the consumer semaphore and never posts it back | push 7 into a one-slot fifo, peek, then `try_pop` fails although 7 is queued | peek leaves the token, so the item can still be popped | high (not executed) | Fifo.PeekLeaksToken | Fifo.PeekThenPop |
| Amazoom/include/cpen333/thread/fifo.h:327-349 | `size` and `empty` compare only the two indices, which are equal both when empty and when full | a one-slot fifo holding one item reports size 0 and empty | size is the number of items held; empty means none | high (not executed) | Fifo.FullFifoLooksEmpty | Fifo.Size |
| Amazoom/include/cpen333/process/impl/basic_pipe.h:209-215 | at the end of the stream `read` returns 0, even after it has already copied bytes in this call | "ab" written into a 4-byte pipe, closed, then `read` of 5 bytes copies both, returns 0; `read_all` of 5 bytes then returns false having counted neither | return the number of bytes read so far, so that `read_all` keeps them | high (not executed) | Pipe.ReadLosesBytesAtEof, Pipe.ReadAllLosesBytes | Pipe.Read, Pipe.ReadAll |
| Amazoom/include/cpen333/process/impl/basic_pipe.h:101,209 | the end-of-stream tests run only when the recorded end is positive, so a pipe closed at write index 0 has no end | close a fresh pipe: a read returns a byte nobody wrote and a write is accepted | a closed pipe reports the end of the stream and refuses writes, wherever its index is | high (not executed) | Pipe.CloseAtIndexZeroReadsPastEnd | Pipe.Read |
| Amazoom/include/cpen333/process/impl/basic_pipe.h:101-109 | same guard on the write side | write one byte after closing a fresh pipe: it succeeds | the write is refused | high (not executed) | Pipe.CloseAtIndexZeroAcceptsWrite | Pipe.Write |
| Amazoom/include/cpen333/process/impl/basic_pipe.h:209-215 | the end test compares the read index with the write index at close, which is also where a full pipe's unread data starts | a 2-byte pipe full with both indices at 1, closed: `read` returns 0 at once | both buffered bytes are read before the end of the stream | medium (not executed) | Pipe.FullPipeEofTooEarly | Pipe.Read |
| Amazoom/include/cpen333/process/impl/basic_pipe.h:256-266 | `available` is the index difference, 0 for a full pipe | fill a fresh pipe with a write of its own size: `available` is 0 | the number of buffered bytes | high (not executed) | Pipe.FullPipeLooksEmpty | Pipe.Available |
| Amazoom/include/cpen333/thread/impl/shared_mutex_fair.h:89-99 | `try_lock_shared` reports success without counting the reader in a batch | `try_lock_shared` on a fresh lock succeeds, and a writer may then proceed beside the reader | the reader joins the current batch as `lock_shared` does | high (not executed) | FairLock.TryLockSharedAdmitsWriter | FairLock.NextPreservesInv |
| Amazoom/include/cpen333/thread/impl/shared_mutex_exclusive.h:162 | `try_lock` sets `exclusive_count_ = 1`, erasing writers already waiting | A announces itself in `lock`; B's `try_lock` succeeds; B's `unlock` reopens the gate while A waits | the count is incremented | high (not executed) | ExclusiveLock.TryLockLosesWaitingWriter | ExclusiveLock.TryLockKeepsWaitingWriter |
| Amazoom/include/cpen333/thread/impl/shared_mutex_exclusive.h:227-234 | `try_lock_until` returns true after its wait for the lock timed out | A holds the lock; B's `try_lock_until` times out and returns true | return false when the lock was not taken | high (not executed) | ExclusiveLock.TryLockUntilClaimsHeldLock | ExclusiveLock.NextPreservesInv |
| Amazoom/include/cpen333/thread/rendezvous.h:49-74 | an arriving thread may start the next round before the previous one has left | size 2: A waits, B releases it, B re-enters before A has left: both threads end up waiting | arrivals wait until the previous round has left | medium (not executed) | Rendezvous.ReuseStrandsWaiter | Rendezvous.NextPreservesInv |
