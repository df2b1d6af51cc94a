/** The memory store that the controller drives: the current value of every cell, the
    time of every cell's last access, and the logical clock.

    Only its interface is modelled. Its block bookkeeping and the access-adapter records
    it produces when an access size disagrees with the recorded block size are not part of
    this model: every method that may produce adapter records returns some list and logs
    it in the ghost field emitted, and promises nothing about its contents. */
module MemoryStore {
  import opened Equipartitions

  /** The timestamp every cell carries before its first access. */
  const INITIAL_TIMESTAMP: nat := 0

  datatype MemoryReadRecord = MemoryReadRecord(
    addressSpace: nat, pointer: nat, timestamp: nat, prevTimestamp: nat, data: seq<nat>)

  datatype MemoryWriteRecord = MemoryWriteRecord(
    addressSpace: nat, pointer: nat, timestamp: nat, prevTimestamp: nat,
    prevData: seq<nat>, data: seq<nat>)

  /** Evidence that a block was split into halves or merged from two halves. The two
      types below only give adapter records their shape: the store's record generation is
      not part of this model, so no member builds or inspects their fields. */
  datatype AccessAdapterRecordKind = Split | Merge(leftTimestamp: nat, rightTimestamp: nat)

  datatype AccessAdapterRecord = AccessAdapterRecord(
    timestamp: nat, addressSpace: nat, startIndex: nat, data: seq<nat>,
    kind: AccessAdapterRecordKind)

  /** A block of values with the time of its last access. */
  datatype TimestampedValues = TimestampedValues(timestamp: nat, values: seq<nat>)

  type TimestampedEquipartition = map<BlockKey, TimestampedValues>

  /** The address i cells after ptr. */
  function At(addressSpace: nat, ptr: nat, i: nat): Address {
    (addressSpace, ptr + i)
  }

  /** The n consecutive addresses ptr, ptr + 1, ..., ptr + n - 1 of one address space. */
  function Span(addressSpace: nat, ptr: nat, n: nat): set<Address> {
    set i: nat | i < n :: At(addressSpace, ptr, i)
  }

  /** The n values stored from ptr on (zero where nothing was stored). */
  function Slice(image: MemoryImage, addressSpace: nat, ptr: nat, n: nat): (s: seq<nat>) {
    seq(n, i requires 0 <= i < n => ValueAt(image, At(addressSpace, ptr, i)))
  }

  /** Every cell of an empty image reads as zero. */
  lemma SliceOfEmpty(addressSpace: nat, ptr: nat, n: nat)
    ensures Slice(map[], addressSpace, ptr, n) == seq(n, _ => 0)
  {
  }

  /** Membership in a span, stated on the address itself. */
  lemma SpanMember(addressSpace: nat, ptr: nat, n: nat, a: Address)
    ensures a in Span(addressSpace, ptr, n) <==> a.0 == addressSpace && ptr <= a.1 < ptr + n
  {
    if a.0 == addressSpace && ptr <= a.1 < ptr + n {
      assert a == At(addressSpace, ptr, a.1 - ptr);
    }
  }

  /** The image after storing values at ptr, ptr + 1, ..., one cell after the other. */
  function Store(image: MemoryImage, addressSpace: nat, ptr: nat, values: seq<nat>): MemoryImage
    decreases |values|
  {
    if |values| == 0 then image
    else Store(image, addressSpace, ptr, values[..|values| - 1])[At(addressSpace, ptr, |values| - 1) := values[|values| - 1]]
  }

  /** Storing values sets exactly the cells of their span and leaves every other cell as it was. */
  lemma {:induction false} StoreValueAt(image: MemoryImage, addressSpace: nat, ptr: nat, values: seq<nat>, a: Address)
    ensures a in Span(addressSpace, ptr, |values|) ==> ValueAt(Store(image, addressSpace, ptr, values), a) == values[a.1 - ptr]
    ensures a !in Span(addressSpace, ptr, |values|) ==> ValueAt(Store(image, addressSpace, ptr, values), a) == ValueAt(image, a)
    decreases |values|
  {
    SpanMember(addressSpace, ptr, |values|, a);
    if |values| > 0 {
      var n := |values| - 1;
      StoreValueAt(image, addressSpace, ptr, values[..n], a);
      SpanMember(addressSpace, ptr, n, a);
    }
  }

  /** Storing values adds exactly the cells of their span to the image. */
  lemma {:induction false} StoreKeys(image: MemoryImage, addressSpace: nat, ptr: nat, values: seq<nat>)
    ensures Store(image, addressSpace, ptr, values).Keys == image.Keys + Span(addressSpace, ptr, |values|)
    decreases |values|
  {
    if |values| > 0 {
      var n := |values| - 1;
      StoreKeys(image, addressSpace, ptr, values[..n]);
      assert Span(addressSpace, ptr, |values|) == Span(addressSpace, ptr, n) + {At(addressSpace, ptr, n)};
    }
  }

  /** Read after write: reading the span just written gives back exactly the values written. */
  lemma {:induction false} SliceOfStore(image: MemoryImage, addressSpace: nat, ptr: nat, values: seq<nat>)
    ensures Slice(Store(image, addressSpace, ptr, values), addressSpace, ptr, |values|) == values
  {
    var s := Slice(Store(image, addressSpace, ptr, values), addressSpace, ptr, |values|);
    forall i | 0 <= i < |values|
      ensures s[i] == values[i]
    {
      StoreValueAt(image, addressSpace, ptr, values, At(addressSpace, ptr, i));
    }
  }

  /** The last-access time of a cell (the initial timestamp if never accessed). */
  function AccessTime(stamps: map<Address, nat>, a: Address): nat {
    if a in stamps then stamps[a] else INITIAL_TIMESTAMP
  }

  /** The latest last-access time among the n cells from ptr on: the previous timestamp of
      an access to that span. */
  function LastAccess(stamps: map<Address, nat>, addressSpace: nat, ptr: nat, n: nat): (t: nat)
    ensures forall i :: 0 <= i < n ==> AccessTime(stamps, At(addressSpace, ptr, i)) <= t
    ensures t == INITIAL_TIMESTAMP || exists i :: 0 <= i < n && t == AccessTime(stamps, At(addressSpace, ptr, i))
  {
    if n == 0 then INITIAL_TIMESTAMP
    else
      var earlier := LastAccess(stamps, addressSpace, ptr, n - 1);
      var last := AccessTime(stamps, At(addressSpace, ptr, n - 1));
      if earlier < last then last else earlier
  }

  /** The access times after an access at time t to the n cells from ptr on. */
  function Restamp(stamps: map<Address, nat>, addressSpace: nat, ptr: nat, n: nat, t: nat): map<Address, nat>
    decreases n
  {
    if n == 0 then stamps
    else Restamp(stamps, addressSpace, ptr, n - 1, t)[At(addressSpace, ptr, n - 1) := t]
  }

  /** Stamping a span with t gives exactly its cells time t and keeps every other cell's
      access time; the map gains exactly the cells of the span. */
  lemma {:induction false} RestampAt(stamps: map<Address, nat>, addressSpace: nat, ptr: nat, n: nat, t: nat, a: Address)
    ensures a in Restamp(stamps, addressSpace, ptr, n, t) <==> a in stamps || a in Span(addressSpace, ptr, n)
    ensures a in Span(addressSpace, ptr, n) ==> Restamp(stamps, addressSpace, ptr, n, t)[a] == t
    ensures a !in Span(addressSpace, ptr, n) && a in stamps ==> Restamp(stamps, addressSpace, ptr, n, t)[a] == stamps[a]
    decreases n
  {
    SpanMember(addressSpace, ptr, n, a);
    if n > 0 {
      RestampAt(stamps, addressSpace, ptr, n - 1, t, a);
      SpanMember(addressSpace, ptr, n - 1, a);
    }
  }

  /** Stamping with t keeps every access time at most t when all of them were. */
  lemma RestampBounded(stamps: map<Address, nat>, addressSpace: nat, ptr: nat, n: nat, t: nat)
    requires forall a :: a in stamps ==> stamps[a] <= t
    ensures forall a :: a in Restamp(stamps, addressSpace, ptr, n, t) ==> Restamp(stamps, addressSpace, ptr, n, t)[a] <= t
  {
    forall a | a in Restamp(stamps, addressSpace, ptr, n, t)
      ensures Restamp(stamps, addressSpace, ptr, n, t)[a] <= t
    {
      RestampAt(stamps, addressSpace, ptr, n, t, a);
    }
  }

  /** Right after an access stamps n > 0 cells with t, the latest access time of those
      cells is t: the next access to them carries this access's time as its previous one. */
  lemma LastAccessAfterRestamp(stamps: map<Address, nat>, addressSpace: nat, ptr: nat, n: nat, t: nat)
    requires n > 0
    ensures LastAccess(Restamp(stamps, addressSpace, ptr, n, t), addressSpace, ptr, n) == t
  {
    var restamped := Restamp(stamps, addressSpace, ptr, n, t);
    forall i | 0 <= i < n
      ensures AccessTime(restamped, At(addressSpace, ptr, i)) == t
    {
      SpanMember(addressSpace, ptr, n, At(addressSpace, ptr, i));
      RestampAt(stamps, addressSpace, ptr, n, t, At(addressSpace, ptr, i));
    }
  }

  /** Stamping a span leaves the access time of every cell outside it as it was. */
  lemma RestampOutside(stamps: map<Address, nat>, addressSpace: nat, ptr: nat, n: nat, t: nat, a: Address)
    requires a !in Span(addressSpace, ptr, n)
    ensures AccessTime(Restamp(stamps, addressSpace, ptr, n, t), a) == AccessTime(stamps, a)
  {
    RestampAt(stamps, addressSpace, ptr, n, t, a);
  }

  /** A cell never accessed before has the initial timestamp as its previous one. */
  lemma LastAccessNever(stamps: map<Address, nat>, addressSpace: nat, ptr: nat, n: nat)
    requires forall i :: 0 <= i < n ==> At(addressSpace, ptr, i) !in stamps
    ensures LastAccess(stamps, addressSpace, ptr, n) == INITIAL_TIMESTAMP
  {
  }

  /** For one cell, the span's latest access is the cell's own access time, and stamping
      the span stamps just that cell. */
  lemma OneCellAccess(stamps: map<Address, nat>, addressSpace: nat, ptr: nat, t: nat)
    ensures LastAccess(stamps, addressSpace, ptr, 1) == AccessTime(stamps, (addressSpace, ptr))
    ensures Restamp(stamps, addressSpace, ptr, 1, t) == stamps[(addressSpace, ptr) := t]
  {
    assert At(addressSpace, ptr, 0) == (addressSpace, ptr);
  }

  class Memory {
    /** The logical clock. */
    var timestamp: nat
    /** Current cell values; an absent cell holds zero. */
    var data: MemoryImage
    /** Time of the last access of every accessed cell. */
    var lastAccess: map<Address, nat>
    /** Every adapter record this store has produced, in order. */
    ghost var emitted: seq<AccessAdapterRecord>

    /** The clock is past the initial timestamp and every cell was last accessed before now. */
    ghost predicate Valid()
      reads this
    {
      && INITIAL_TIMESTAMP < timestamp
      && forall a :: a in lastAccess ==> lastAccess[a] < timestamp
    }

    /** Memory::new: the cells of an equipartition of block size n, never accessed, with the
        clock one past the initial timestamp. */
    constructor (initial: Equipartition, n: nat)
      requires n > 0 && IsEquipartition(initial, n)
      ensures Valid()
      ensures timestamp == INITIAL_TIMESTAMP + 1
      ensures data == EquipartitionToImage(initial, n) && lastAccess == map[] && emitted == []
    {
      timestamp := INITIAL_TIMESTAMP + 1;
      data := EquipartitionToImage(initial, n);
      lastAccess := map[];
      emitted := [];
    }

    method IncrementTimestamp()
      requires Valid()
      modifies this
      ensures Valid()
      ensures timestamp == old(timestamp) + 1
      ensures data == old(data) && lastAccess == old(lastAccess) && emitted == old(emitted)
    {
      timestamp := timestamp + 1;
    }

    method IncrementTimestampBy(change: nat)
      requires Valid()
      modifies this
      ensures Valid()
      ensures timestamp == old(timestamp) + change
      ensures data == old(data) && lastAccess == old(lastAccess) && emitted == old(emitted)
    {
      timestamp := timestamp + change;
    }

    /** A read of n cells: returns their values with the current time and the latest previous
        access time of the span, stamps the span with the current time and advances the clock. */
    method Read(addressSpace: nat, ptr: nat, n: nat)
      returns (record: MemoryReadRecord, adapterRecords: seq<AccessAdapterRecord>)
      requires Valid()
      modifies this
      ensures Valid()
      ensures record == MemoryReadRecord(addressSpace, ptr, old(timestamp),
        LastAccess(old(lastAccess), addressSpace, ptr, n), Slice(old(data), addressSpace, ptr, n))
      ensures record.prevTimestamp < record.timestamp
      ensures timestamp == old(timestamp) + 1 && data == old(data)
      ensures lastAccess == Restamp(old(lastAccess), addressSpace, ptr, n, old(timestamp))
      ensures emitted == old(emitted) + adapterRecords
    {
      record := MemoryReadRecord(addressSpace, ptr, timestamp,
        LastAccess(lastAccess, addressSpace, ptr, n), Slice(data, addressSpace, ptr, n));
      adapterRecords := [];
      RestampBounded(lastAccess, addressSpace, ptr, n, timestamp);
      lastAccess := Restamp(lastAccess, addressSpace, ptr, n, timestamp);
      timestamp := timestamp + 1;
    }

    /** A write of values to consecutive cells: returns the old and the new values with the
        current time and the latest previous access time of the span, stores the values,
        stamps the span and advances the clock. */
    method Write(addressSpace: nat, ptr: nat, values: seq<nat>)
      returns (record: MemoryWriteRecord, adapterRecords: seq<AccessAdapterRecord>)
      requires Valid()
      modifies this
      ensures Valid()
      ensures record == MemoryWriteRecord(addressSpace, ptr, old(timestamp),
        LastAccess(old(lastAccess), addressSpace, ptr, |values|),
        Slice(old(data), addressSpace, ptr, |values|), values)
      ensures record.prevTimestamp < record.timestamp
      ensures timestamp == old(timestamp) + 1
      ensures data == Store(old(data), addressSpace, ptr, values)
      ensures Slice(data, addressSpace, ptr, |values|) == values
      ensures lastAccess == Restamp(old(lastAccess), addressSpace, ptr, |values|, old(timestamp))
      ensures emitted == old(emitted) + adapterRecords
    {
      SliceOfStore(data, addressSpace, ptr, values);
      record := MemoryWriteRecord(addressSpace, ptr, timestamp,
        LastAccess(lastAccess, addressSpace, ptr, |values|),
        Slice(data, addressSpace, ptr, |values|), values);
      adapterRecords := [];
      data := Store(data, addressSpace, ptr, values);
      RestampBounded(lastAccess, addressSpace, ptr, |values|, timestamp);
      lastAccess := Restamp(lastAccess, addressSpace, ptr, |values|, timestamp);
      timestamp := timestamp + 1;
    }

    /** The final state as blocks of n cells: the equipartition of the current values, each
        block with the latest access time of its cells. Values and clock are unchanged. */
    method Finalize(n: nat)
      returns (finalPartition: TimestampedEquipartition, adapterRecords: seq<AccessAdapterRecord>)
      requires Valid() && n > 0
      modifies this
      ensures Valid()
      ensures finalPartition.Keys == HitBlocks(old(data), n)
      ensures forall k: BlockKey :: k in finalPartition ==>
        finalPartition[k].values == ImageToEquipartition(old(data), n)[k]
      ensures forall k: BlockKey :: k in finalPartition ==>
        finalPartition[k].timestamp == LastAccess(old(lastAccess), k.0, k.1 * n, n)
      ensures timestamp == old(timestamp) && data == old(data) && lastAccess == old(lastAccess)
      ensures emitted == old(emitted) + adapterRecords
    {
      var blocks := ImageToEquipartition(data, n);
      finalPartition := map k | k in blocks ::
        TimestampedValues(LastAccess(lastAccess, k.0, k.1 * n, n), blocks[k]);
      adapterRecords := [];
    }
  }
}
