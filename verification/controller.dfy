/** The memory controller: the single entry point through which the VM reads and writes
    memory. It owns the memory store (and with it the logical clock), the memory interface
    (volatile or persistent) and the access-adapter inventory, and it reports the shape of
    the memory AIRs in the fixed order [Boundary, Merkle (persistent only), adapters...].

    Every fatal assertion of the controller is an Err result here; each of them is checked
    before anything is changed, so an Err leaves the whole controller as it was. */
module MemoryController {
  import opened Wrappers
  import opened Equipartitions
  import opened MemoryStore
  import opened MemoryChips
  import opened TraceHeights

  /** Block size of persistent memory (one Merkle leaf). */
  const CHUNK: nat := 8

  datatype MemoryError =
    | OutOfBounds                    // pointer at or beyond 2^pointer_max_bits
    | InvalidZeroAddressSpaceAccess  // batch read or any write in address space 0
    | DoubleFinalize                 // finalize called a second time
    | MissingHasher                  // persistent finalize without a hasher
    | PrematureInitialMemorySet      // set_initial_memory after the clock moved
    | VolatileInitialMemory          // non-empty initial memory for volatile memory
    | TraceHeightVariantMismatch     // override heights of the other variant

  /** What finalize leaves behind: nothing for volatile memory, the final blocks for
      persistent memory. */
  datatype FinalState = VolatileFinal | PersistentFinal(finalMemory: Equipartition)

  /** 1 << k */
  function Pow2(k: nat): nat {
    if k == 0 then 1 else 2 * Pow2(k - 1)
  }

  /** The block values of a finalized partition, without their timestamps. */
  function FinalValues(p: TimestampedEquipartition): (v: Equipartition)
    ensures v.Keys == p.Keys
    ensures forall k :: k in v ==> v[k] == p[k].values
  {
    map k | k in p :: p[k].values
  }

  /** A partition whose keys are the blocks the image hits and whose values are the
      image's blocks yields, without its timestamps, exactly those blocks, and reading
      any address back from them gives the image's value there. */
  lemma FinalBlocks(p: TimestampedEquipartition, image: MemoryImage)
    requires p.Keys == HitBlocks(image, CHUNK)
    requires forall k: BlockKey :: k in p ==> p[k].values == ImageToEquipartition(image, CHUNK)[k]
    ensures FinalValues(p) == ImageToEquipartition(image, CHUNK)
    ensures forall a: Address :: Lookup(FinalValues(p), CHUNK, a) == ValueAt(image, a)
  {
    forall a: Address
      ensures Lookup(FinalValues(p), CHUNK, a) == ValueAt(image, a)
    {
      EquipartitionRoundTrip(image, CHUNK, a);
    }
  }

  class MemoryController {
    /** Pointers of non-zero address spaces must be below 2^pointerMaxBits. */
    const pointerMaxBits: nat
    const interfaceChip: MemoryInterface
    const accessAdapters: AccessAdapterInventory
    var memory: Memory
    var finalState: Option<FinalState>
    /** Adapter records that came from stores this controller has since replaced. */
    ghost var retiredRecords: seq<AccessAdapterRecord>

    /** The parts are consistent, persistent initial memory is made of CHUNK-sized blocks,
        and the inventory holds exactly the adapter records the stores produced, in order. */
    ghost predicate Valid()
      reads this, memory, interfaceChip, accessAdapters
    {
      && memory.Valid()
      && interfaceChip.Valid()
      && IsEquipartition(interfaceChip.initialMemory, CHUNK)
      && accessAdapters.records == retiredRecords + memory.emitted
    }

    /** Valid, except that the adapter records pending have left the store and have not yet
        reached the inventory. */
    ghost predicate ValidPending(pending: seq<AccessAdapterRecord>)
      reads this, memory, interfaceChip, accessAdapters
    {
      && memory.Valid()
      && interfaceChip.Valid()
      && IsEquipartition(interfaceChip.initialMemory, CHUNK)
      && accessAdapters.records + pending == retiredRecords + memory.emitted
    }

    /** with_volatile_memory: an empty store and a volatile interface. */
    constructor WithVolatileMemory(pointerMaxBits: nat, adapterAirNames: seq<string>)
      ensures Valid()
      ensures this.pointerMaxBits == pointerMaxBits && finalState == None
      ensures interfaceChip.variant == InterfaceVariant.Volatile && interfaceChip.touched == {}
      ensures memory.timestamp == INITIAL_TIMESTAMP + 1 && memory.data == map[]
      ensures accessAdapters.airNames == adapterAirNames && accessAdapters.records == []
      ensures fresh(memory) && fresh(interfaceChip) && fresh(accessAdapters)
      ensures interfaceChip.boundaryOverride == None && interfaceChip.merkleOverride == None
      ensures accessAdapters.overrideHeights == None
    {
      this.pointerMaxBits := pointerMaxBits;
      interfaceChip := new MemoryInterface.WithVolatile();
      accessAdapters := new AccessAdapterInventory(adapterAirNames);
      memory := new Memory(map[], 1);
      finalState := None;
      retiredRecords := [];
      assert CoveredAddresses(map[], 1) == {};
    }

    /** with_persistent_memory: a store loaded with the initial memory, and a persistent
        interface that keeps it. */
    constructor WithPersistentMemory(pointerMaxBits: nat, adapterAirNames: seq<string>, initialMemory: Equipartition)
      requires IsEquipartition(initialMemory, CHUNK)
      ensures Valid()
      ensures this.pointerMaxBits == pointerMaxBits && finalState == None
      ensures interfaceChip.variant == InterfaceVariant.Persistent && interfaceChip.touched == {}
      ensures interfaceChip.initialMemory == initialMemory
      ensures memory.timestamp == INITIAL_TIMESTAMP + 1
      ensures memory.data == EquipartitionToImage(initialMemory, CHUNK)
      ensures accessAdapters.airNames == adapterAirNames && accessAdapters.records == []
      ensures fresh(memory) && fresh(interfaceChip) && fresh(accessAdapters)
      ensures interfaceChip.boundaryOverride == None && interfaceChip.merkleOverride == None
      ensures accessAdapters.overrideHeights == None
    {
      this.pointerMaxBits := pointerMaxBits;
      interfaceChip := new MemoryInterface.WithPersistent(initialMemory);
      accessAdapters := new AccessAdapterInventory(adapterAirNames);
      memory := new Memory(initialMemory, CHUNK);
      finalState := None;
      retiredRecords := [];
    }

    /** continuation_enabled: only persistent memory carries state to a next segment; a
        controller without continuations has no inherited memory and no Merkle chip. */
    function ContinuationEnabled(): (r: bool)
      reads interfaceChip
      requires interfaceChip.Valid()
      ensures r <==> interfaceChip.variant == InterfaceVariant.Persistent
      ensures !r ==> interfaceChip.initialMemory == map[] && interfaceChip.merkleOverride == None
    {
      match interfaceChip.variant
      case Volatile => false
      case Persistent => true
    }

    /** timestamp: the store's clock, always past the initial timestamp. */
    function Timestamp(): (t: nat)
      reads this, memory, interfaceChip, accessAdapters
      requires Valid()
      ensures t > INITIAL_TIMESTAMP
    {
      memory.timestamp
    }

    /** Hands every adapter record to the inventory, in order. */
    method ForwardRecords(records: seq<AccessAdapterRecord>)
      modifies accessAdapters
      ensures accessAdapters.records == old(accessAdapters.records) + records
      ensures accessAdapters.overrideHeights == old(accessAdapters.overrideHeights)
    {
      var i := 0;
      while i < |records|
        invariant 0 <= i <= |records|
        invariant accessAdapters.records == old(accessAdapters.records) + records[..i]
        invariant accessAdapters.overrideHeights == old(accessAdapters.overrideHeights)
      {
        accessAdapters.AddRecord(records[i]);
        i := i + 1;
      }
    }

    /** Hands the adapter records pending to the inventory, which makes the controller
        valid again. */
    method Deliver(records: seq<AccessAdapterRecord>)
      requires ValidPending(records)
      modifies accessAdapters
      ensures Valid()
      ensures accessAdapters.records == old(accessAdapters.records) + records
      ensures accessAdapters.overrideHeights == old(accessAdapters.overrideHeights)
    {
      ForwardRecords(records);
    }

    /** Touches the n addresses ptr, ptr + 1, ..., ptr + n - 1 of the interface. */
    method TouchSpan(addressSpace: nat, ptr: nat, n: nat)
      requires interfaceChip.Valid()
      modifies interfaceChip
      ensures interfaceChip.Valid()
      ensures interfaceChip.touched == old(interfaceChip.touched) + Span(addressSpace, ptr, n)
      ensures interfaceChip.initialMemory == old(interfaceChip.initialMemory)
      ensures interfaceChip.boundaryOverride == old(interfaceChip.boundaryOverride)
      ensures interfaceChip.merkleOverride == old(interfaceChip.merkleOverride)
    {
      var i := 0;
      while i < n
        invariant 0 <= i <= n
        invariant interfaceChip.Valid()
        invariant interfaceChip.touched == old(interfaceChip.touched) + Span(addressSpace, ptr, i)
        invariant interfaceChip.initialMemory == old(interfaceChip.initialMemory)
        invariant interfaceChip.boundaryOverride == old(interfaceChip.boundaryOverride)
        invariant interfaceChip.merkleOverride == old(interfaceChip.merkleOverride)
      {
        interfaceChip.TouchAddress(addressSpace, ptr + i);
        assert Span(addressSpace, ptr, i + 1) == Span(addressSpace, ptr, i) + {At(addressSpace, ptr, i)};
        i := i + 1;
      }
    }

    /** What every store access is followed by: its adapter records go to the inventory
        and its n cells are touched; the store itself is left alone. */
    method AfterAccess(records: seq<AccessAdapterRecord>, addressSpace: nat, ptr: nat, n: nat)
      requires ValidPending(records)
      modifies interfaceChip, accessAdapters
      ensures Valid()
      ensures accessAdapters.records == old(accessAdapters.records) + records
      ensures interfaceChip.touched == old(interfaceChip.touched) + Span(addressSpace, ptr, n)
      ensures interfaceChip.initialMemory == old(interfaceChip.initialMemory)
      ensures interfaceChip.boundaryOverride == old(interfaceChip.boundaryOverride)
      ensures interfaceChip.merkleOverride == old(interfaceChip.merkleOverride)
      ensures accessAdapters.overrideHeights == old(accessAdapters.overrideHeights)
    {
      ForwardRecords(records);
      TouchSpan(addressSpace, ptr, n);
    }

    /** read: address space 0 holds immediates (a single cell whose value is the pointer
        itself, costing one clock tick); any other address space is read from the store,
        within the pointer bound, forwarding the adapter records and touching the n cells. */
    method Read(addressSpace: nat, pointer: nat, n: nat)
      returns (r: Result<MemoryReadRecord, MemoryError>)
      requires Valid()
      modifies memory, interfaceChip, accessAdapters
      ensures Valid()
      ensures addressSpace != 0 && pointer >= Pow2(pointerMaxBits) ==>
        r == Err(OutOfBounds) && unchanged(memory, interfaceChip, accessAdapters)
      ensures addressSpace == 0 && n != 1 ==>
        r == Err(InvalidZeroAddressSpaceAccess) && unchanged(memory, interfaceChip, accessAdapters)
      ensures addressSpace == 0 && n == 1 ==>
        && r == Ok(MemoryReadRecord(0, pointer, old(memory.timestamp), 0, [pointer]))
        && memory.timestamp == old(memory.timestamp) + 1
        && memory.data == old(memory.data) && memory.lastAccess == old(memory.lastAccess)
        && memory.emitted == old(memory.emitted)
        && unchanged(interfaceChip, accessAdapters)
      ensures addressSpace != 0 && pointer < Pow2(pointerMaxBits) ==>
        && r.Ok?
        && r.value.addressSpace == addressSpace && r.value.pointer == pointer
        && r.value.data == old(UnsafeRead(addressSpace, pointer, n))
        && r.value.timestamp == old(memory.timestamp)
        && r.value.prevTimestamp == LastAccess(old(memory.lastAccess), addressSpace, pointer, n)
        && r.value.prevTimestamp < r.value.timestamp
        && memory.timestamp == old(memory.timestamp) + 1
        && memory.data == old(memory.data)
        && memory.lastAccess == Restamp(old(memory.lastAccess), addressSpace, pointer, n, old(memory.timestamp))
        && interfaceChip.touched == old(interfaceChip.touched) + Span(addressSpace, pointer, n)
        && interfaceChip.initialMemory == old(interfaceChip.initialMemory)
        && old(memory.emitted) <= memory.emitted
        && accessAdapters.records == old(accessAdapters.records) + memory.emitted[|old(memory.emitted)|..]
      ensures interfaceChip.boundaryOverride == old(interfaceChip.boundaryOverride)
      ensures interfaceChip.merkleOverride == old(interfaceChip.merkleOverride)
      ensures accessAdapters.overrideHeights == old(accessAdapters.overrideHeights)
    {
      if addressSpace != 0 && pointer >= Pow2(pointerMaxBits) {
        return Err(OutOfBounds);
      }
      if addressSpace == 0 {
        if n != 1 {
          return Err(InvalidZeroAddressSpaceAccess);
        }
        var record := ReadImmediate(pointer);
        return Ok(record);
      }
      var record := ReadFromStore(addressSpace, pointer, n);
      return Ok(record);
    }

    /** An immediate: the pointer itself, read at the current time, one clock tick. */
    method ReadImmediate(pointer: nat) returns (record: MemoryReadRecord)
      requires Valid()
      modifies memory
      ensures Valid()
      ensures record == MemoryReadRecord(0, pointer, old(memory.timestamp), 0, [pointer])
      ensures memory.timestamp == old(memory.timestamp) + 1
      ensures memory.data == old(memory.data) && memory.lastAccess == old(memory.lastAccess)
      ensures memory.emitted == old(memory.emitted)
    {
      var timestamp := memory.timestamp;
      memory.IncrementTimestamp();
      return MemoryReadRecord(0, pointer, timestamp, 0, [pointer]);
    }

    /** A read of n cells from the store, followed by forwarding its adapter records and
        touching the n cells. */
    method ReadFromStore(addressSpace: nat, pointer: nat, n: nat) returns (record: MemoryReadRecord)
      requires Valid()
      modifies memory, interfaceChip, accessAdapters
      ensures Valid()
      ensures record.addressSpace == addressSpace && record.pointer == pointer
      ensures record.data == old(UnsafeRead(addressSpace, pointer, n))
      ensures record.timestamp == old(memory.timestamp)
      ensures record.prevTimestamp == LastAccess(old(memory.lastAccess), addressSpace, pointer, n)
      ensures record.prevTimestamp < record.timestamp
      ensures memory.timestamp == old(memory.timestamp) + 1
      ensures memory.data == old(memory.data)
      ensures memory.lastAccess == Restamp(old(memory.lastAccess), addressSpace, pointer, n, old(memory.timestamp))
      ensures interfaceChip.touched == old(interfaceChip.touched) + Span(addressSpace, pointer, n)
      ensures interfaceChip.initialMemory == old(interfaceChip.initialMemory)
      ensures old(memory.emitted) <= memory.emitted
      ensures accessAdapters.records == old(accessAdapters.records) + memory.emitted[|old(memory.emitted)|..]
      ensures interfaceChip.boundaryOverride == old(interfaceChip.boundaryOverride)
      ensures interfaceChip.merkleOverride == old(interfaceChip.merkleOverride)
      ensures accessAdapters.overrideHeights == old(accessAdapters.overrideHeights)
    {
      ghost var emittedBefore := memory.emitted;
      var adapterRecords;
      record, adapterRecords := memory.Read(addressSpace, pointer, n);
      assert ValidPending(adapterRecords) by {
        assert retiredRecords + emittedBefore + adapterRecords == retiredRecords + (emittedBefore + adapterRecords);
      }
      AfterAccess(adapterRecords, addressSpace, pointer, n);
    }

    /** read_cell: a read of one cell. */
    method ReadCell(addressSpace: nat, pointer: nat) returns (r: Result<MemoryReadRecord, MemoryError>)
      requires Valid()
      modifies memory, interfaceChip, accessAdapters
      ensures Valid()
      ensures addressSpace != 0 && pointer >= Pow2(pointerMaxBits) ==>
        r == Err(OutOfBounds) && unchanged(memory, interfaceChip, accessAdapters)
      ensures addressSpace == 0 ==>
        && r == Ok(MemoryReadRecord(0, pointer, old(memory.timestamp), 0, [pointer]))
        && memory.timestamp == old(memory.timestamp) + 1
        && memory.data == old(memory.data) && memory.lastAccess == old(memory.lastAccess)
        && memory.emitted == old(memory.emitted)
        && unchanged(interfaceChip, accessAdapters)
      ensures addressSpace != 0 && pointer < Pow2(pointerMaxBits) ==>
        && r.Ok?
        && r.value.addressSpace == addressSpace && r.value.pointer == pointer
        && r.value.data == [old(UnsafeReadCell(addressSpace, pointer))]
        && r.value.timestamp == old(memory.timestamp)
        && r.value.prevTimestamp == AccessTime(old(memory.lastAccess), (addressSpace, pointer))
        && r.value.prevTimestamp < r.value.timestamp
        && memory.timestamp == old(memory.timestamp) + 1
        && memory.data == old(memory.data)
        && memory.lastAccess == old(memory.lastAccess)[(addressSpace, pointer) := old(memory.timestamp)]
        && interfaceChip.touched == old(interfaceChip.touched) + {(addressSpace, pointer)}
        && interfaceChip.initialMemory == old(interfaceChip.initialMemory)
        && old(memory.emitted) <= memory.emitted
        && accessAdapters.records == old(accessAdapters.records) + memory.emitted[|old(memory.emitted)|..]
      ensures interfaceChip.boundaryOverride == old(interfaceChip.boundaryOverride)
      ensures interfaceChip.merkleOverride == old(interfaceChip.merkleOverride)
      ensures accessAdapters.overrideHeights == old(accessAdapters.overrideHeights)
    {
      OneCellAccess(memory.lastAccess, addressSpace, pointer, memory.timestamp);
      r := Read(addressSpace, pointer, 1);
      assert Span(addressSpace, pointer, 1) == {(addressSpace, pointer)} by {
        assert At(addressSpace, pointer, 0) == (addressSpace, pointer);
      }
    }

    /** write: never in address space 0; within the pointer bound, stores the values through
        the store, forwarding the adapter records and touching the written cells. */
    method Write(addressSpace: nat, pointer: nat, values: seq<nat>)
      returns (r: Result<MemoryWriteRecord, MemoryError>)
      requires Valid()
      modifies memory, interfaceChip, accessAdapters
      ensures Valid()
      ensures addressSpace == 0 ==>
        r == Err(InvalidZeroAddressSpaceAccess) && unchanged(memory, interfaceChip, accessAdapters)
      ensures addressSpace != 0 && pointer >= Pow2(pointerMaxBits) ==>
        r == Err(OutOfBounds) && unchanged(memory, interfaceChip, accessAdapters)
      ensures addressSpace != 0 && pointer < Pow2(pointerMaxBits) ==>
        && r.Ok?
        && r.value.addressSpace == addressSpace && r.value.pointer == pointer
        && r.value.data == values
        && r.value.prevData == old(UnsafeRead(addressSpace, pointer, |values|))
        && r.value.timestamp == old(memory.timestamp)
        && r.value.prevTimestamp == LastAccess(old(memory.lastAccess), addressSpace, pointer, |values|)
        && r.value.prevTimestamp < r.value.timestamp
        && memory.timestamp == old(memory.timestamp) + 1
        && memory.data == Store(old(memory.data), addressSpace, pointer, values)
        && memory.lastAccess == Restamp(old(memory.lastAccess), addressSpace, pointer, |values|, old(memory.timestamp))
        && UnsafeRead(addressSpace, pointer, |values|) == values
        && interfaceChip.touched == old(interfaceChip.touched) + Span(addressSpace, pointer, |values|)
        && interfaceChip.initialMemory == old(interfaceChip.initialMemory)
        && old(memory.emitted) <= memory.emitted
        && accessAdapters.records == old(accessAdapters.records) + memory.emitted[|old(memory.emitted)|..]
      ensures interfaceChip.boundaryOverride == old(interfaceChip.boundaryOverride)
      ensures interfaceChip.merkleOverride == old(interfaceChip.merkleOverride)
      ensures accessAdapters.overrideHeights == old(accessAdapters.overrideHeights)
    {
      if addressSpace == 0 {
        return Err(InvalidZeroAddressSpaceAccess);
      }
      if pointer >= Pow2(pointerMaxBits) {
        return Err(OutOfBounds);
      }
      var record := WriteChecked(addressSpace, pointer, values);
      return Ok(record);
    }

    /** The part of write past its checks: the store write, the forwarded adapter records
        and the touched cells. */
    method WriteChecked(addressSpace: nat, pointer: nat, values: seq<nat>) returns (record: MemoryWriteRecord)
      requires Valid()
      modifies memory, interfaceChip, accessAdapters
      ensures Valid()
      ensures record.addressSpace == addressSpace && record.pointer == pointer
      ensures record.data == values
      ensures record.prevData == old(UnsafeRead(addressSpace, pointer, |values|))
      ensures record.timestamp == old(memory.timestamp)
      ensures record.prevTimestamp == LastAccess(old(memory.lastAccess), addressSpace, pointer, |values|)
      ensures record.prevTimestamp < record.timestamp
      ensures memory.timestamp == old(memory.timestamp) + 1
      ensures memory.data == Store(old(memory.data), addressSpace, pointer, values)
      ensures memory.lastAccess == Restamp(old(memory.lastAccess), addressSpace, pointer, |values|, old(memory.timestamp))
      ensures UnsafeRead(addressSpace, pointer, |values|) == values
      ensures interfaceChip.touched == old(interfaceChip.touched) + Span(addressSpace, pointer, |values|)
      ensures interfaceChip.initialMemory == old(interfaceChip.initialMemory)
      ensures old(memory.emitted) <= memory.emitted
      ensures accessAdapters.records == old(accessAdapters.records) + memory.emitted[|old(memory.emitted)|..]
      ensures interfaceChip.boundaryOverride == old(interfaceChip.boundaryOverride)
      ensures interfaceChip.merkleOverride == old(interfaceChip.merkleOverride)
      ensures accessAdapters.overrideHeights == old(accessAdapters.overrideHeights)
    {
      ghost var emittedBefore := memory.emitted;
      var adapterRecords;
      record, adapterRecords := memory.Write(addressSpace, pointer, values);
      assert ValidPending(adapterRecords) by {
        assert retiredRecords + emittedBefore + adapterRecords == retiredRecords + (emittedBefore + adapterRecords);
      }
      AfterAccess(adapterRecords, addressSpace, pointer, |values|);
    }

    /** write_cell: a write of one cell. */
    method WriteCell(addressSpace: nat, pointer: nat, value: nat) returns (r: Result<MemoryWriteRecord, MemoryError>)
      requires Valid()
      modifies memory, interfaceChip, accessAdapters
      ensures Valid()
      ensures addressSpace == 0 ==>
        r == Err(InvalidZeroAddressSpaceAccess) && unchanged(memory, interfaceChip, accessAdapters)
      ensures addressSpace != 0 && pointer >= Pow2(pointerMaxBits) ==>
        r == Err(OutOfBounds) && unchanged(memory, interfaceChip, accessAdapters)
      ensures addressSpace != 0 && pointer < Pow2(pointerMaxBits) ==>
        && r.Ok?
        && r.value.addressSpace == addressSpace && r.value.pointer == pointer
        && r.value.data == [value]
        && r.value.prevData == [old(UnsafeReadCell(addressSpace, pointer))]
        && r.value.timestamp == old(memory.timestamp)
        && r.value.prevTimestamp == AccessTime(old(memory.lastAccess), (addressSpace, pointer))
        && r.value.prevTimestamp < r.value.timestamp
        && memory.timestamp == old(memory.timestamp) + 1
        && memory.data == Store(old(memory.data), addressSpace, pointer, [value])
        && memory.lastAccess == old(memory.lastAccess)[(addressSpace, pointer) := old(memory.timestamp)]
        && UnsafeReadCell(addressSpace, pointer) == value
        && interfaceChip.touched == old(interfaceChip.touched) + {(addressSpace, pointer)}
        && interfaceChip.initialMemory == old(interfaceChip.initialMemory)
        && old(memory.emitted) <= memory.emitted
        && accessAdapters.records == old(accessAdapters.records) + memory.emitted[|old(memory.emitted)|..]
      ensures interfaceChip.boundaryOverride == old(interfaceChip.boundaryOverride)
      ensures interfaceChip.merkleOverride == old(interfaceChip.merkleOverride)
      ensures accessAdapters.overrideHeights == old(accessAdapters.overrideHeights)
    {
      OneCellAccess(memory.lastAccess, addressSpace, pointer, memory.timestamp);
      r := Write(addressSpace, pointer, [value]);
      assert Span(addressSpace, pointer, 1) == {(addressSpace, pointer)} by {
        assert At(addressSpace, pointer, 0) == (addressSpace, pointer);
      }
      if r.Ok? {
        assert UnsafeReadCell(addressSpace, pointer) == UnsafeRead(addressSpace, pointer, 1)[0];
      }
    }

    /** unsafe_read: the current values of n cells, straight from the store, with no record,
        no clock tick and no bounds or address-space check; unwritten cells read as zero. */
    function UnsafeRead(addressSpace: nat, pointer: nat, n: nat): (values: seq<nat>)
      reads this, memory
      ensures |values| == n
      ensures forall i :: 0 <= i < n ==> values[i] == ValueAt(memory.data, At(addressSpace, pointer, i))
    {
      Slice(memory.data, addressSpace, pointer, n)
    }

    /** unsafe_read_cell: the current value of one cell. */
    function UnsafeReadCell(addressSpace: nat, pointer: nat): (value: nat)
      reads this, memory
      ensures value == ValueAt(memory.data, (addressSpace, pointer))
    {
      UnsafeRead(addressSpace, pointer, 1)[0]
    }

    method IncrementTimestamp()
      requires Valid()
      modifies memory
      ensures Valid()
      ensures memory.timestamp == old(memory.timestamp) + 1
      ensures memory.data == old(memory.data) && memory.lastAccess == old(memory.lastAccess)
    {
      memory.IncrementTimestamp();
    }

    method IncrementTimestampBy(change: nat)
      requires Valid()
      modifies memory
      ensures Valid()
      ensures memory.timestamp == old(memory.timestamp) + change
      ensures memory.data == old(memory.data) && memory.lastAccess == old(memory.lastAccess)
    {
      memory.IncrementTimestampBy(change);
    }

    /** increase_timestamp_to: moves the clock forward to the given time. */
    method IncreaseTimestampTo(timestamp: nat)
      requires Valid() && timestamp >= memory.timestamp
      modifies memory
      ensures Valid()
      ensures memory.timestamp == timestamp
      ensures memory.data == old(memory.data) && memory.lastAccess == old(memory.lastAccess)
    {
      memory.IncrementTimestampBy(timestamp - memory.timestamp);
    }

    /** finalize: allowed once. Volatile memory yields nothing; persistent memory needs a
        hasher and yields the store's values cut into CHUNK-sized blocks. The adapter records
        the store produces while finalizing go to the inventory. */
    method Finalize(withHasher: bool) returns (r: Result<Option<Equipartition>, MemoryError>)
      requires Valid()
      modifies this, memory, accessAdapters
      ensures Valid() && memory == old(memory)
      ensures old(finalState).Some? ==>
        r == Err(DoubleFinalize) && finalState == old(finalState) && unchanged(memory, accessAdapters)
      ensures old(finalState).None? && interfaceChip.variant == InterfaceVariant.Persistent && !withHasher ==>
        r == Err(MissingHasher) && finalState == None && unchanged(memory, accessAdapters)
      ensures old(finalState).None? && interfaceChip.variant == InterfaceVariant.Volatile ==>
        r == Ok(None) && finalState == Some(VolatileFinal)
      ensures old(finalState).None? && interfaceChip.variant == InterfaceVariant.Persistent && withHasher ==>
        && r == Ok(Some(ImageToEquipartition(old(memory.data), CHUNK)))
        && finalState == Some(PersistentFinal(r.value.value))
        && (forall a :: Lookup(r.value.value, CHUNK, a) == ValueAt(old(memory.data), a))
      ensures r.Ok? ==>
        && memory.data == old(memory.data) && memory.timestamp == old(memory.timestamp)
        && old(memory.emitted) <= memory.emitted
        && accessAdapters.records == old(accessAdapters.records) + memory.emitted[|old(memory.emitted)|..]
      ensures accessAdapters.overrideHeights == old(accessAdapters.overrideHeights)
    {
      if finalState.Some? {
        return Err(DoubleFinalize);
      }
      ghost var emittedBefore := memory.emitted;
      var records, finalMemory;
      match interfaceChip.variant {
        case Volatile =>
          var finalPartition;
          finalPartition, records := memory.Finalize(1);
          finalState := Some(VolatileFinal);
          finalMemory := None;
        case Persistent =>
          if !withHasher {
            return Err(MissingHasher);
          }
          var finalPartition;
          finalPartition, records := memory.Finalize(CHUNK);
          FinalBlocks(finalPartition, memory.data);
          finalState := Some(PersistentFinal(FinalValues(finalPartition)));
          finalMemory := Some(FinalValues(finalPartition));
      }
      assert ValidPending(records) by {
        assert retiredRecords + emittedBefore + records == retiredRecords + (emittedBefore + records);
      }
      Deliver(records);
      return Ok(finalMemory);
    }

    /** set_initial_memory: only while the clock is at most one past the initial timestamp.
        Volatile memory accepts only an empty image and then changes nothing; persistent
        memory keeps the new initial memory and rebuilds the store from it. */
    method SetInitialMemory(initialMemory: Equipartition) returns (r: Result<(), MemoryError>)
      requires Valid() && IsEquipartition(initialMemory, CHUNK)
      modifies this, interfaceChip
      ensures Valid()
      ensures old(memory.timestamp) > INITIAL_TIMESTAMP + 1 ==>
        r == Err(PrematureInitialMemorySet) && memory == old(memory) && unchanged(interfaceChip)
      ensures old(memory.timestamp) <= INITIAL_TIMESTAMP + 1 && interfaceChip.variant == InterfaceVariant.Volatile ==>
        && r == (if initialMemory == map[] then Ok(()) else Err(VolatileInitialMemory))
        && memory == old(memory) && unchanged(interfaceChip)
      ensures old(memory.timestamp) <= INITIAL_TIMESTAMP + 1 && interfaceChip.variant == InterfaceVariant.Persistent ==>
        && r == Ok(())
        && interfaceChip.initialMemory == initialMemory
        && interfaceChip.touched == old(interfaceChip.touched)
        && fresh(memory)
        && memory.timestamp == INITIAL_TIMESTAMP + 1
        && (forall a :: ValueAt(memory.data, a) == Lookup(initialMemory, CHUNK, a))
      ensures finalState == old(finalState) && unchanged(accessAdapters)
      ensures interfaceChip.boundaryOverride == old(interfaceChip.boundaryOverride)
      ensures interfaceChip.merkleOverride == old(interfaceChip.merkleOverride)
    {
      if memory.timestamp > INITIAL_TIMESTAMP + 1 {
        return Err(PrematureInitialMemorySet);
      }
      match interfaceChip.variant {
        case Volatile =>
          if initialMemory != map[] {
            return Err(VolatileInitialMemory);
          }
        case Persistent =>
          interfaceChip.initialMemory := initialMemory;
          retiredRecords := accessAdapters.records;
          memory := new Memory(initialMemory, CHUNK);
          forall a: Address
            ensures ValueAt(memory.data, a) == Lookup(initialMemory, CHUNK, a)
          {
            EquipartitionToImageValues(initialMemory, CHUNK, a);
          }
      }
      return Ok(());
    }

    /** set_override_trace_heights: the heights must be of the interface's own variant; they
        then go to the boundary chip, the Merkle chip (persistent) and the adapters. */
    method SetOverrideTraceHeights(heights: MemoryTraceHeights) returns (r: Result<(), MemoryError>)
      requires Valid()
      modifies interfaceChip, accessAdapters
      ensures Valid()
      ensures (interfaceChip.variant == InterfaceVariant.Persistent) != heights.Persistent? ==>
        r == Err(TraceHeightVariantMismatch) && unchanged(interfaceChip, accessAdapters)
      ensures (interfaceChip.variant == InterfaceVariant.Persistent) == heights.Persistent? ==>
        && r == Ok(())
        && interfaceChip.boundaryOverride == Some(heights.Boundary())
        && interfaceChip.merkleOverride ==
             (if heights.Persistent? then Some(heights.persistent.merkle) else old(interfaceChip.merkleOverride))
        && accessAdapters.overrideHeights == Some(heights.AccessAdapters())
      ensures interfaceChip.touched == old(interfaceChip.touched)
      ensures interfaceChip.initialMemory == old(interfaceChip.initialMemory)
      ensures accessAdapters.records == old(accessAdapters.records)
    {
      match interfaceChip.variant {
        case Volatile =>
          match heights {
            case Volatile(oh) =>
              interfaceChip.boundaryOverride := Some(oh.boundary);
              accessAdapters.SetOverrideTraceHeights(oh.accessAdapters);
            case Persistent(_) =>
              return Err(TraceHeightVariantMismatch);
          }
        case Persistent =>
          match heights {
            case Persistent(oh) =>
              interfaceChip.boundaryOverride := Some(oh.boundary);
              interfaceChip.merkleOverride := Some(oh.merkle);
              accessAdapters.SetOverrideTraceHeights(oh.accessAdapters);
            case Volatile(_) =>
              return Err(TraceHeightVariantMismatch);
          }
      }
      return Ok(());
    }

    /** get_dummy_memory_trace_heights: heights of the interface's variant, one adapter
        entry per access adapter, every height 1. */
    function GetDummyMemoryTraceHeights(): (h: MemoryTraceHeights)
      ensures h.Persistent? <==> interfaceChip.variant == InterfaceVariant.Persistent
      ensures |h.AccessAdapters()| == accessAdapters.NumAccessAdapters()
      ensures forall i :: 0 <= i < |Flatten(h)| ==> Flatten(h)[i] == 1
    {
      var adapters := seq(accessAdapters.NumAccessAdapters(), _ => 1);
      match interfaceChip.variant
      case Volatile => MemoryTraceHeights.Volatile(VolatileMemoryTraceHeights(1, adapters))
      case Persistent => MemoryTraceHeights.Persistent(PersistentMemoryTraceHeights(1, 1, adapters))
    }

    /** num_airs: one boundary AIR, one Merkle AIR when continuations are enabled, and one
        AIR per access adapter; the same count as the entries of a heights list. */
    method NumAirs() returns (n: nat)
      requires Valid()
      ensures n == 1 + (if ContinuationEnabled() then 1 else 0) + accessAdapters.NumAccessAdapters()
      ensures n == |Flatten(GetDummyMemoryTraceHeights())|
    {
      n := 1;
      if ContinuationEnabled() {
        n := n + 1;
      }
      n := n + accessAdapters.NumAccessAdapters();
    }

    /** air_names: "Boundary" first, then "Merkle" exactly when continuations are enabled,
        then the adapters' names; one name per entry of a heights list, in the same order. */
    method AirNames() returns (names: seq<string>)
      requires Valid()
      ensures |names| == |Flatten(GetDummyMemoryTraceHeights())|
      ensures names[BOUNDARY_AIR_OFFSET] == "Boundary"
      ensures ContinuationEnabled() ==> names[MERKLE_AIR_OFFSET] == "Merkle"
      ensures names[GetDummyMemoryTraceHeights().AdapterOffset()..] == accessAdapters.airNames
    {
      names := ["Boundary"];
      if ContinuationEnabled() {
        names := names + ["Merkle"];
      }
      names := names + accessAdapters.airNames;
    }
  }

  /** A second finalize always fails, whatever the first one returned. */
  method FinalizeTwice(controller: MemoryController, withHasher: bool)
    returns (first: Result<Option<Equipartition>, MemoryError>, second: Result<Option<Equipartition>, MemoryError>)
    requires controller.Valid()
    modifies controller, controller.memory, controller.accessAdapters
    ensures first.Ok? ==> second == Err(DoubleFinalize)
    ensures first.Err? ==> first.error in {DoubleFinalize, MissingHasher}
  {
    first := controller.Finalize(withHasher);
    second := controller.Finalize(withHasher);
  }

  /** Eight values written from pointer 24 of an otherwise empty address space fill
      exactly the block labelled 3. */
  lemma {:induction false} OneBlockWritten(addressSpace: nat, values: seq<nat>)
    requires |values| == CHUNK
    ensures ImageToEquipartition(Store(map[], addressSpace, 3 * CHUNK, values), CHUNK)
         == map[(addressSpace, 3) := values]
  {
    var image := Store(map[], addressSpace, 3 * CHUNK, values);
    var p := ImageToEquipartition(image, CHUNK);
    StoreKeys(map[], addressSpace, 3 * CHUNK, values);
    assert HitBlocks(image, CHUNK) == {(addressSpace, 3)} by {
      assert At(addressSpace, 3 * CHUNK, 0) in Span(addressSpace, 3 * CHUNK, CHUNK);
      forall a | a in image
        ensures BlockOf(a, CHUNK) == (addressSpace, 3)
      {
        SpanMember(addressSpace, 3 * CHUNK, CHUNK, a);
      }
    }
    forall i | 0 <= i < CHUNK
      ensures p[(addressSpace, 3)][i] == values[i]
    {
      assert SlotAddress((addressSpace, 3), CHUNK, i) == At(addressSpace, 3 * CHUNK, i);
      SpanMember(addressSpace, 3 * CHUNK, CHUNK, At(addressSpace, 3 * CHUNK, i));
      StoreValueAt(map[], addressSpace, 3 * CHUNK, values, At(addressSpace, 3 * CHUNK, i));
    }
    assert p[(addressSpace, 3)] == values;
    assert p.Keys == {(addressSpace, 3)};
  }

  /** Writes 1..8 at pointer 24 of address space 1 of a controller whose store is empty:
      the old values read as zeros and the store then holds exactly those eight cells. */
  method WriteFirstBlock(controller: MemoryController) returns (write: Result<MemoryWriteRecord, MemoryError>)
    requires controller.Valid() && controller.memory.data == map[] && controller.pointerMaxBits == 5
    modifies controller.memory, controller.interfaceChip, controller.accessAdapters
    ensures controller.Valid()
    ensures write.Ok? && write.value.prevData == [0, 0, 0, 0, 0, 0, 0, 0]
    ensures controller.memory.data == Store(map[], 1, 3 * CHUNK, [1, 2, 3, 4, 5, 6, 7, 8])
  {
    assert Pow2(5) == 32;
    write := controller.Write(1, 24, [1, 2, 3, 4, 5, 6, 7, 8]);
    SliceOfEmpty(1, 24, 8);
    assert seq(8, _ => 0) == [0, 0, 0, 0, 0, 0, 0, 0];
  }

  /** A persistent controller over empty initial memory, written at pointer 24 and then
      finalized, commits the one block labelled 3 holding the written values. */
  method PersistentFinalizeScenario(adapterAirNames: seq<string>)
    returns (write: Result<MemoryWriteRecord, MemoryError>, final: Result<Option<Equipartition>, MemoryError>)
    ensures write.Ok? && write.value.prevData == [0, 0, 0, 0, 0, 0, 0, 0]
    ensures final == Ok(Some(map[(1, 3) := [1, 2, 3, 4, 5, 6, 7, 8]]))
  {
    var controller := new MemoryController.WithPersistentMemory(5, adapterAirNames, map[]);
    assert CoveredAddresses(map[], CHUNK) == {};
    assert controller.memory.data == map[];
    write := WriteFirstBlock(controller);
    OneBlockWritten(1, [1, 2, 3, 4, 5, 6, 7, 8]);
    final := controller.Finalize(true);
  }

  /** A persistent controller over empty initial memory whose only access is a read
      finalizes to no block at all: a cell only read holds no stored value. */
  method ReadOnlyFinalizeScenario(adapterAirNames: seq<string>)
    returns (final: Result<Option<Equipartition>, MemoryError>)
    ensures final == Ok(Some(map[]))
  {
    var controller := new MemoryController.WithPersistentMemory(5, adapterAirNames, map[]);
    assert CoveredAddresses(map[], CHUNK) == {};
    assert Pow2(5) == 32;
    var r := controller.Read(1, 0, 1);
    assert controller.memory.data == map[];
    assert HitBlocks(map[], CHUNK) == {};
    final := controller.Finalize(true);
  }

  /** A persistent controller finalized without any access returns its initial memory:
      a loaded block counts although it was never touched. */
  method UntouchedFinalizeScenario(adapterAirNames: seq<string>)
    returns (final: Result<Option<Equipartition>, MemoryError>)
    ensures final == Ok(Some(map[(1, 0) := [7, 0, 0, 0, 0, 0, 0, 0]]))
  {
    var initial := map[(1, 0) := [7, 0, 0, 0, 0, 0, 0, 0]];
    var controller := new MemoryController.WithPersistentMemory(5, adapterAirNames, initial);
    PartitionReloadRoundTrip(initial, CHUNK);
    final := controller.Finalize(true);
  }

  /** On a fresh volatile controller, the first write to a cell has the initial timestamp
      as its previous one; the next read of that cell returns the written value with the
      write's time as its previous timestamp; a cell never accessed reads as 0 with the
      initial timestamp. */
  method AccessChainScenario(adapterAirNames: seq<string>)
    returns (w: Result<MemoryWriteRecord, MemoryError>, r: Result<MemoryReadRecord, MemoryError>,
             other: Result<MemoryReadRecord, MemoryError>)
    ensures w.Ok? && w.value.prevTimestamp == INITIAL_TIMESTAMP
    ensures r.Ok? && r.value.data == [5] && r.value.prevTimestamp == w.value.timestamp
    ensures other.Ok? && other.value.data == [0] && other.value.prevTimestamp == INITIAL_TIMESTAMP
  {
    var controller := new MemoryController.WithVolatileMemory(5, adapterAirNames);
    assert Pow2(5) == 32;
    ghost var stamps := controller.memory.lastAccess;
    OneCellAccess(stamps, 1, 0, controller.memory.timestamp);
    w := controller.Write(1, 0, [5]);
    ghost var afterWrite := controller.memory.lastAccess;
    LastAccessAfterRestamp(stamps, 1, 0, 1, w.value.timestamp);
    r := controller.Read(1, 0, 1);
    OneCellAccess(controller.memory.lastAccess, 1, 8, controller.memory.timestamp);
    SpanMember(1, 0, 1, (1, 8));
    StoreValueAt(map[], 1, 0, [5], (1, 8));
    RestampOutside(stamps, 1, 0, 1, w.value.timestamp, (1, 8));
    RestampOutside(afterWrite, 1, 0, 1, r.value.timestamp, (1, 8));
    other := controller.Read(1, 8, 1);
  }

  /** On a fresh volatile controller, an immediate read of 7 returns 7, stamped with the
      starting clock, and ticks the clock once. */
  method ImmediateReadScenario(adapterAirNames: seq<string>) returns (r: Result<MemoryReadRecord, MemoryError>, clock: nat)
    ensures r == Ok(MemoryReadRecord(0, 7, INITIAL_TIMESTAMP + 1, 0, [7]))
    ensures clock == INITIAL_TIMESTAMP + 2
  {
    var controller := new MemoryController.WithVolatileMemory(29, adapterAirNames);
    r := controller.Read(0, 7, 1);
    clock := controller.Timestamp();
  }
}
