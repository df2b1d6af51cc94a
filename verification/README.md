# Memory controller and VM metrics, in Dafny

This project models the memory controller of the VM: the single entry point through which
instructions read and write memory. It holds the memory store, which carries the logical clock.
It also holds a memory interface, either volatile or persistent (Merkle-committed, able to carry
memory over to a continuation segment), and an inventory of access-adapter records. The
model covers:

- the controller's guarded operations: immediate reads in address space 0, pointer bounds,
  no writes to address space 0, touching the cells of an access, forwarding adapter records,
  a once-only finalize, the set-initial-memory guards and the variant check on override
  heights;
- the fixed order of the memory AIRs, `[Boundary, Merkle (persistent only), adapters...]`,
  shared by trace-height lists, AIR counts and AIR names;
- rounding of trace heights to powers of two;
- the conversion of a sparse memory image into equipartitions, blocks of `N` cells labelled by
  `(address_space, pointer / N)`, with its round trips;
- the per-instruction profiling bookkeeping of `VmMetrics`: opcode counts, per-AIR trace-cell
  growth and the current function span.

Files:
- `wrappers.dfy` holds Option and Result.
- `equipartition.dfy` holds images and equipartitions.
- `store.dfy` models the memory store.
- `chips.dfy` models the memory interface and the adapter inventory.
- `trace_heights.dfy` holds trace heights and their rounding.
- `controller.dfy` holds the controller itself.
- `metrics.dfy` holds the metrics.

Field elements, `u32` and `usize` values are all modelled as unbounded naturals. Every
explicit panic or failed assertion of the controller is modelled as an `Err` result. Each
one is raised before anything changes, so an `Err` leaves the controller's state as it
was. The one exception is the unsigned-subtraction underflow in `increase_timestamp_to`:
it is a precondition of `IncreaseTimestampTo` instead (see "Left out").

The memory store, the interface chips and the adapter inventory are not part of this
model. They appear only through the state the controller reads and updates:
- the store has a clock, a value per cell, the time of each cell's last access, and a
  ghost log of the adapter records it hands out;
- the interface has a set of touched cells, the initial memory and the override heights;
- the inventory has its AIR names, the records it received and the override heights.

Four behaviours of the store are assumptions of the model:
- its clock starts at `INITIAL_TIMESTAMP + 1`;
- every read and every write advances the clock by exactly one;
- a record's previous timestamp is the latest last-access time over the accessed cells;
- its finalize returns one block for every label that holds a stored value. Loaded
  initial memory counts whether or not it was touched. A cell that was only read, and
  never loaded or written, gives no block.

## Model

| member | source | states |
|---|---|---|
| Equipartitions.ImageToEquipartition | crates/vm/src/system/memory/manager/mod.rs:712-722 | the result has blocks of exactly N cells, and a block exists exactly for each label `(as, addr / N)` hit by some image entry |
| Equipartitions.ImageToEquipartitionIsPartition | crates/vm/src/system/memory/manager/mod.rs:712-722 | every entry `((as, addr), w)` sits at slot `addr % N` of block `(as, addr / N)`; every slot no entry hits is 0 |
| Equipartitions.PartitionOfIsUnique | crates/vm/src/system/memory/manager/mod.rs:712-722 | any map with the blocks, placement and zero filling above is exactly the computed equipartition |
| Equipartitions.EquipartitionRoundTrip | crates/vm/src/system/memory/manager/mod.rs:712-722 | reading slot `addr % N` of block `(as, addr / N)` gives back the image's value at `(as, addr)`, and 0 for a cell not in the image |
| Equipartitions.MemoryImageToEquipartition | crates/vm/src/system/memory/manager/mod.rs:712-722 | the entry-by-entry loop (a block starts as zeros, then one slot is set per entry) computes exactly `ImageToEquipartition` |
| Equipartitions.PlaceCellOther | crates/vm/src/system/memory/manager/mod.rs:712-722 | setting one new cell of the partition leaves the slot of every other cell of the image present and unchanged |
| Equipartitions.EquipartitionToImageValues | crates/vm/src/system/memory/manager/mod.rs:264 | loading an equipartition into the store gives every cell the value of its slot, and 0 for cells outside every block |
| Equipartitions.ImageReloadRoundTrip | crates/vm/src/system/memory/manager/mod.rs:264 | cutting an image into blocks and loading the blocks back preserves the value of every cell |
| Equipartitions.PartitionReloadRoundTrip | crates/vm/src/system/memory/manager/mod.rs:264 | loading an equipartition into memory and cutting that memory back into blocks gives back exactly the equipartition |
| MemoryStore.StoreValueAt | crates/vm/src/system/memory/manager/mod.rs:418 | after a store write, the written cells hold the new values and every other cell keeps its value |
| MemoryStore.SliceOfStore | crates/vm/src/system/memory/manager/mod.rs:418 | reading back the cells just written gives exactly the written values |
| MemoryStore.StoreKeys | crates/vm/src/system/memory/manager/mod.rs:418 | after a store write, the store holds exactly the cells it held before plus the N written ones |
| MemoryStore.SpanMember | crates/vm/src/system/memory/manager/mod.rs:376-379 | an address is among the N cells from ptr exactly when it is in the same address space and between ptr and ptr + N - 1 |
| MemoryStore.LastAccess | crates/vm/src/system/memory/manager/mod.rs:371 | the previous timestamp of an access is the latest last-access time over its cells, or the initial timestamp if none was accessed |
| MemoryStore.RestampAt | crates/vm/src/system/memory/manager/mod.rs:371 | stamping N cells with t gives exactly those cells time t, adds them to the access map, and keeps every other cell's access time |
| MemoryStore.RestampBounded | crates/vm/src/system/memory/manager/mod.rs:371 | stamping with t keeps every access time at most t when all of them were |
| MemoryStore.LastAccessAfterRestamp | crates/vm/src/system/memory/manager/mod.rs:371 | right after an access to N > 0 cells at time t, their latest access time is t, so the next access to them carries t as its previous timestamp |
| MemoryStore.RestampOutside | crates/vm/src/system/memory/manager/mod.rs:371 | an access leaves the access time of every cell outside its span unchanged |
| MemoryStore.LastAccessNever | crates/vm/src/system/memory/manager/mod.rs:371 | cells never accessed have the initial timestamp as their previous timestamp |
| MemoryStore.OneCellAccess | crates/vm/src/system/memory/manager/mod.rs:344-346 | for one cell, the latest access time of the span is the cell's own, and stamping the span stamps just that cell |
| MemoryStore.Memory.constructor | crates/vm/src/system/memory/manager/mod.rs:238 | a fresh store holds the loaded equipartition's values, with the clock one past the initial timestamp |
| MemoryStore.Memory.IncrementTimestamp | crates/vm/src/system/memory/manager/mod.rs:440-442 | the clock advances by one and nothing else changes |
| MemoryStore.Memory.IncrementTimestampBy | crates/vm/src/system/memory/manager/mod.rs:444-446 | the clock advances by the given amount and nothing else changes |
| MemoryStore.Memory.Read | crates/vm/src/system/memory/manager/mod.rs:371 | the record carries the current values, the current clock and an earlier previous timestamp; the clock ticks once, values are unchanged, the cells are restamped and the adapter records are logged |
| MemoryStore.Memory.Write | crates/vm/src/system/memory/manager/mod.rs:418 | as for a read, with the previous values in the record and the new values stored, so that the N written cells read back as exactly the new values |
| MemoryStore.Memory.Finalize | crates/vm/src/system/memory/manager/mod.rs:480 | under the fourth store assumption above: the final partition has one block per label holding a stored value (loaded or written, touched or not; cells only read give none), each block holding the equipartition of the current values and stamped with its cells' latest access; values and clock are unchanged |
| MemoryChips.MemoryInterface.WithVolatile | crates/vm/src/system/memory/manager/mod.rs:230-236 | a volatile interface has touched nothing, no initial memory and no Merkle override |
| MemoryChips.MemoryInterface.WithPersistent | crates/vm/src/system/memory/manager/mod.rs:266-275 | a persistent interface keeps the initial memory and has touched nothing |
| MemoryChips.AccessAdapterInventory.constructor | crates/vm/src/system/memory/manager/mod.rs:239-244 | a new inventory has the given adapter AIR names, no records and no override heights |
| MemoryChips.MemoryInterface.TouchAddress | crates/vm/src/system/memory/manager/mod.rs:376-379 | the cell is added to the touched set; nothing else changes |
| MemoryChips.AccessAdapterInventory.AddRecord | crates/vm/src/system/memory/manager/mod.rs:372-374 | the record is appended to the inventory's records |
| MemoryChips.AccessAdapterInventory.SetOverrideTraceHeights | crates/vm/src/system/memory/manager/mod.rs:298-299 | the adapter override heights are replaced; the records are kept |
| TraceHeights.Flatten | crates/vm/src/system/memory/manager/mod.rs:131-136 | volatile heights flatten to `[boundary] ++ adapters`, persistent heights to `[boundary, merkle] ++ adapters`, with the boundary at `BOUNDARY_AIR_OFFSET` and the Merkle height at `MERKLE_AIR_OFFSET` |
| TraceHeights.NextPowerOfTwo | crates/vm/src/system/memory/manager/mod.rs:169 | the result is a power of two, at least the input, and the least such (0 and 1 give 1) |
| TraceHeights.NextPowerOfTwoOrZero | crates/vm/src/system/memory/manager/mod.rs:176 | 0 stays 0; any other input becomes its next power of two |
| TraceHeights.NextPowerOfTwoIsLeast | crates/vm/src/system/memory/manager/mod.rs:168-173 | no power of two at least the input is below the rounded value |
| TraceHeights.RoundEach | crates/vm/src/system/memory/manager/mod.rs:170-172 | the `iter_mut` loop rounds every entry of the list and keeps its length |
| TraceHeights.RoundAll | crates/vm/src/system/memory/manager/mod.rs:138-152 | rounding keeps the variant and the number of adapter entries, and rounds every flattened height pointwise |
| TraceHeights.RoundToNextPowerOfTwo | crates/vm/src/system/memory/manager/mod.rs:139-144 | every height becomes the least power of two at least it (so 0 becomes 1); the shape is kept |
| TraceHeights.RoundToNextPowerOfTwoOrZero | crates/vm/src/system/memory/manager/mod.rs:147-152 | every height of 0 stays 0 and every other height becomes its least power of two at least it; the shape is kept |
| MemoryController.MemoryController.WithVolatileMemory | crates/vm/src/system/memory/manager/mod.rs:221-249 | a volatile controller owns a fresh store, interface and inventory. It starts with an empty store, the clock one past the initial timestamp, nothing touched, no records, no override heights and no final state |
| MemoryController.MemoryController.WithPersistentMemory | crates/vm/src/system/memory/manager/mod.rs:251-291 | a persistent controller owns a fresh store, interface and inventory. It keeps the initial memory in its interface and loads it into the store, with the clock one past the initial timestamp, nothing touched, no records, no override heights and no final state |
| MemoryController.MemoryController.ContinuationEnabled | crates/vm/src/system/memory/manager/mod.rs:215-220 | continuations are enabled exactly for the persistent variant; without them the interface has no initial memory and no Merkle override |
| MemoryController.MemoryController.Timestamp | crates/vm/src/system/memory/manager/mod.rs:453-455 | the controller's clock is always past the initial timestamp |
| MemoryController.MemoryController.ForwardRecords | crates/vm/src/system/memory/manager/mod.rs:372-374 | every adapter record from the store reaches the inventory, in order |
| MemoryController.MemoryController.TouchSpan | crates/vm/src/system/memory/manager/mod.rs:376-379 | exactly the cells `ptr, ptr + 1, ..., ptr + N - 1` of the address space are added to the touched set |
| MemoryController.MemoryController.Deliver | crates/vm/src/system/memory/manager/mod.rs:372-374 | once the records that left the store reach the inventory, in order, the controller is consistent again; the override heights are kept |
| MemoryController.MemoryController.AfterAccess | crates/vm/src/system/memory/manager/mod.rs:372-379 | after a store access, its records reach the inventory in order and exactly its N cells are touched; the initial memory and all override heights are kept |
| MemoryController.MemoryController.Read | crates/vm/src/system/memory/manager/mod.rs:348-382 | address space 0: N must be 1, the record holds the pointer itself, its previous timestamp is 0 and its timestamp is the old clock; the clock ticks once and nothing else changes. Other spaces: an out-of-bounds pointer fails with no change; otherwise the current values are returned with the N cells' latest access time as the previous timestamp, the N cells are stamped with the old clock, the clock ticks once, the N cells are touched and the store's adapter records are forwarded in order. The override heights never change |
| MemoryController.MemoryController.ReadImmediate | crates/vm/src/system/memory/manager/mod.rs:356-369 | the record holds the pointer itself with the old clock and a previous timestamp of 0; the clock ticks once and the store is otherwise unchanged |
| MemoryController.MemoryController.ReadFromStore | crates/vm/src/system/memory/manager/mod.rs:371-381 | the record holds the current values of the N cells with the old clock and, as previous timestamp, the cells' latest access time, which is earlier; the N cells are stamped with the old clock, the clock ticks once, values are unchanged, the N cells are touched and the store's records are forwarded in order |
| MemoryController.MemoryController.ReadCell | crates/vm/src/system/memory/manager/mod.rs:344-346 | `Read` at N = 1: in address space 0 the pointer itself, with nothing but the clock changing; elsewhere the cell's current value, with the old clock and the cell's own last access time as the record's timestamps, the cell stamped with the old clock, one clock tick, the cell touched and the adapter records forwarded; out of bounds fails with no change |
| MemoryController.MemoryController.Write | crates/vm/src/system/memory/manager/mod.rs:404-429 | fails with no change in address space 0 or out of bounds; otherwise stores the values, records the old ones with the N cells' latest access time as the previous timestamp, stamps the N cells with the old clock, ticks the clock once, reads back the written values, touches the N cells and forwards the adapter records. The override heights never change |
| MemoryController.MemoryController.WriteChecked | crates/vm/src/system/memory/manager/mod.rs:418-428 | the part of a write after its checks, with the same effects: the record's previous timestamp is the cells' latest access time, the cells are stamped with the old clock, and the override heights are kept |
| MemoryController.MemoryController.WriteCell | crates/vm/src/system/memory/manager/mod.rs:400-402 | `Write` at values = [value]: the same failures; otherwise the record's data and previous data, the old clock and the cell's own last access time as its timestamps, the cell stamped with the old clock, one clock tick, the cell stored and read back as the value, the cell touched and the adapter records forwarded |
| MemoryController.MemoryController.UnsafeRead | crates/vm/src/system/memory/manager/mod.rs:394-398 | the current values of N consecutive cells, 0 for unwritten ones, with no state change |
| MemoryController.MemoryController.UnsafeReadCell | crates/vm/src/system/memory/manager/mod.rs:387-389 | the current value of one cell |
| MemoryController.MemoryController.IncrementTimestamp | crates/vm/src/system/memory/manager/mod.rs:440-442 | the clock advances by one |
| MemoryController.MemoryController.IncrementTimestampBy | crates/vm/src/system/memory/manager/mod.rs:444-446 | the clock advances by the given amount |
| MemoryController.MemoryController.IncreaseTimestampTo | crates/vm/src/system/memory/manager/mod.rs:448-451 | given a time no earlier than the clock, the clock is set to exactly that time |
| MemoryController.MemoryController.Finalize | crates/vm/src/system/memory/manager/mod.rs:458-504 | a second call fails. Volatile memory yields nothing. Persistent memory without a hasher fails with no change. Persistent memory with a hasher yields the store's final partition without its timestamps: one block per label holding a stored value (loaded or written, touched or not; cells only read give none), so it is the equipartition of the store's values, from which every cell's value can be read back. On success the final state is set and the store's finalize records are forwarded. The adapter override heights never change |
| MemoryController.FinalValues | crates/vm/src/system/memory/manager/mod.rs:482-485 | the projection drops the timestamps and keeps the key set: every block holds exactly the values of the same block of the partition |
| MemoryController.FinalBlocks | crates/vm/src/system/memory/manager/mod.rs:480-484 | dropping the timestamps of the store's final partition gives exactly the equipartition of the store's values, and every cell reads back from it as its value in the store |
| MemoryController.FinalizeTwice | crates/vm/src/system/memory/manager/mod.rs:462-464 | after a successful finalize, the next finalize always fails |
| MemoryController.OneBlockWritten | crates/vm/src/system/memory/manager/mod.rs:712-722 | eight values written from pointer 24 of an empty address space make up exactly the block labelled 3 |
| MemoryController.PersistentFinalizeScenario | crates/vm/src/system/memory/manager/mod.rs:458-504 | a persistent controller over empty memory, written with 1..8 at pointer 24 (the old values read as zeros) and then finalized, yields the single block `(1, 3)` holding 1..8 |
| MemoryController.ImmediateReadScenario | crates/vm/src/system/memory/manager/mod.rs:356-369 | on a fresh volatile controller, an immediate read of 7 returns 7 with the starting clock and a previous timestamp of 0, and ticks the clock once |
| MemoryController.WriteFirstBlock | crates/vm/src/system/memory/manager/mod.rs:404-429 | writing 1..8 at pointer 24 of an empty address space 1 reads zeros as the old values and leaves those eight cells stored |
| MemoryController.AccessChainScenario | crates/vm/src/system/memory/manager/mod.rs:371-428 | on a fresh volatile controller, a first write of 5 to (1, 0) has previous timestamp 0; the next read of (1, 0) returns [5] with the write's time as its previous timestamp; a read of the untouched (1, 8) returns [0] with previous timestamp 0 |
| MemoryController.ReadOnlyFinalizeScenario | crates/vm/src/system/memory/manager/mod.rs:458-504 | a persistent controller over empty memory whose only access is a read finalizes to no block at all |
| MemoryController.UntouchedFinalizeScenario | crates/vm/src/system/memory/manager/mod.rs:458-504 | a persistent controller finalized without any access returns its initial memory, block (1, 0) holding 7 |
| MemoryController.MemoryController.SetInitialMemory | crates/vm/src/system/memory/manager/mod.rs:319-334 | fails once the clock has moved past the first timestamp. Under volatile memory it fails for non-empty memory and otherwise changes nothing. Under persistent memory it replaces the initial memory and rebuilds the store from it. The override heights never change |
| MemoryController.MemoryController.SetOverrideTraceHeights | crates/vm/src/system/memory/manager/mod.rs:293-317 | heights of the other variant fail with no change; matching heights set the boundary override, the Merkle override (persistent) and the adapter overrides |
| MemoryController.MemoryController.GetDummyMemoryTraceHeights | crates/vm/src/system/memory/manager/mod.rs:606-623 | the dummy heights have the interface's variant, one adapter entry per adapter, and every flattened height equal to 1 |
| MemoryController.MemoryController.NumAirs | crates/vm/src/system/memory/manager/mod.rs:564-571 | the AIR count is `1 + (persistent ? 1 : 0) + adapters`, the length of a flattened height list |
| MemoryController.MemoryController.AirNames | crates/vm/src/system/memory/manager/mod.rs:573-580 | `"Boundary"` comes first, then `"Merkle"` with continuations enabled, then exactly the adapters' names; one name per flattened height |
| Metrics.VmMetrics.constructor | crates/vm/src/metrics/mod.rs:15-30 | the derived `Default` followed by the owner setting `fn_bounds`: no counts, no trace cells and no previous cell counts, the given function bounds, and the default current function |
| Metrics.AddTo | crates/vm/src/metrics/mod.rs:84 | the entry grows by the amount, starting from 0 when absent; the other entries are unchanged |
| Metrics.TotalRemove | crates/vm/src/metrics/mod.rs:84 | the sum of a counter map splits into any one entry plus the rest |
| Metrics.TotalAddTo | crates/vm/src/metrics/mod.rs:84 | adding to one entry adds the same amount to the sum of all entries |
| Metrics.CellsAfterEffect | crates/vm/src/metrics/mod.rs:86-95 | entries of the running instruction grow by their AIR's total growth over the shared positions, and appear exactly when present before or when their AIR changed; all other entries are untouched |
| Metrics.VmMetrics.ChargeCells | crates/vm/src/metrics/mod.rs:86-95 | the loop over the shared positions leaves the cell map equal to `CellsAfter` of the old map; counts, function bounds and previous cell counts are unchanged |
| Metrics.FloorKey | crates/vm/src/metrics/mod.rs:101-107 | the greatest key at most pc, or none when every key is above pc |
| Metrics.VmMetrics.UpdateTraceCells | crates/vm/src/metrics/mod.rs:75-97 | the opcode count grows by exactly 1 (from 0 when new) and the sum of counts by 1; each entry of the running instruction grows by the growth of its AIR's cells over the positions shared by the three lists; no count or cell total decreases; the previous cell counts become the new ones |
| Metrics.VmMetrics.UpdateCurrentFn | crates/vm/src/metrics/mod.rs:100-114 | with bounds known and pc outside the current function, the current function becomes the bound with the greatest start at most pc, and with no such bound the call fails; otherwise nothing changes |

## Left out

- `airs`, `generate_air_proof_inputs` and `MemoryAuxColsFactory` are not modelled. They generate the proving backend's traces and columns.
- The boundary chip's and the Merkle chip's `finalize`, `MemoryNode::tree_from_memory` and the hasher are not modelled. They are foreign calls; finalize models only whether a hasher is present.
- `current_trace_heights`, `get_memory_trace_heights` and `current_trace_cells` are not modelled. Their values come from the chips' own trace heights, which are not part of this model.
- `memory_bridge` and `aux_cols_factory` are not modelled. They only build bus handles.
- The memory store's block bookkeeping and adapter-record generation are not modelled. Its methods return some list of adapter records, and the controller's contracts hold for any list.
- The store's `get` and `finalize` timestamps are modelled on the per-cell last-access map described above; the store's source is not part of this model.
- MemoryStore.Memory.Finalize: the key set of the final partition is the fourth store assumption above. The store's source is not part of this model, so it does not promise a partition limited to the blocks that were accessed.
- Parallel collection in persistent finalize is not modelled; the key-wise projection is modelled sequentially.
- `next_power_of_two_or_zero` (from the crate's utils) is not part of this model's sources; it is modelled from its name and the comment on `round_to_next_power_of_two_or_zero`.
- `u32` and `usize` overflow is not modelled: pointer sums `ptr + i`, the clock and metric counters are unbounded. The source's unsigned subtractions `timestamp - self.memory.timestamp()` and `now_value - prev_value` become preconditions.
- TraceHeights.RoundToNextPowerOfTwo: the in-place update through `&mut self` is modelled as a method returning the rounded heights.
- TraceHeights.RoundToNextPowerOfTwoOrZero: the in-place update is modelled the same way.
- Metrics: the `counter!` macros, `emit`, `update_instruction_metrics`, `finalize_metrics` and every cycle-tracker call are not modelled. They are metric output and external state.
- Metrics.VmMetrics.UpdateCurrentFn: the panic of the failing `unwrap` is modelled as the result false with the state unchanged.
- MemoryChips.MemoryInterface.TouchAddress: the interface's own `touch_address` is not part of this model's sources. Both variants are modelled as recording the touched cell in a set; any coarser bookkeeping of the persistent variant is not captured.
- The address space is a natural, not a field element, and pointers are compared as naturals.
