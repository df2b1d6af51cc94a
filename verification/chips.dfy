/** The two collaborators of the controller whose state it updates: the memory interface
    (the boundary chip, plus the Merkle chip and the initial memory when persistent) and the
    access-adapter inventory. Only the state the controller touches is modelled. */
module MemoryChips {
  import opened Wrappers
  import opened Equipartitions
  import opened MemoryStore

  /** Which boundary strategy a controller uses: no commitment, or a Merkle commitment
      that lets memory carry over to a continuation segment. */
  datatype InterfaceVariant = Volatile | Persistent

  class MemoryInterface {
    const variant: InterfaceVariant
    /** Every address an access has touched. */
    var touched: set<Address>
    /** Memory inherited from an earlier segment (Persistent only). */
    var initialMemory: Equipartition
    /** Trace height forced on the boundary chip. */
    var boundaryOverride: Option<nat>
    /** Trace height forced on the Merkle chip (Persistent only). */
    var merkleOverride: Option<nat>

    /** A volatile interface has no initial memory and no Merkle chip. */
    ghost predicate Valid()
      reads this
    {
      variant == Volatile ==> initialMemory == map[] && merkleOverride == None
    }

    constructor WithVolatile()
      ensures Valid() && variant == Volatile
      ensures touched == {} && initialMemory == map[]
      ensures boundaryOverride == None && merkleOverride == None
    {
      variant := Volatile;
      touched := {};
      initialMemory := map[];
      boundaryOverride, merkleOverride := None, None;
    }

    constructor WithPersistent(initial: Equipartition)
      ensures Valid() && variant == Persistent
      ensures touched == {} && initialMemory == initial
      ensures boundaryOverride == None && merkleOverride == None
    {
      variant := Persistent;
      touched := {};
      initialMemory := initial;
      boundaryOverride, merkleOverride := None, None;
    }

    /** touch_address: records that an access reached this address. */
    method TouchAddress(addressSpace: nat, ptr: nat)
      requires Valid()
      modifies this
      ensures Valid()
      ensures touched == old(touched) + {(addressSpace, ptr)}
      ensures initialMemory == old(initialMemory)
      ensures boundaryOverride == old(boundaryOverride) && merkleOverride == old(merkleOverride)
    {
      touched := touched + {(addressSpace, ptr)};
    }
  }

  class AccessAdapterInventory {
    /** One AIR per access size class; its names are fixed at construction. */
    const airNames: seq<string>
    /** Every adapter record received, in order. */
    var records: seq<AccessAdapterRecord>
    /** Trace heights forced on the adapters. */
    var overrideHeights: Option<seq<nat>>

    constructor (airNames: seq<string>)
      ensures this.airNames == airNames && records == [] && overrideHeights == None
    {
      this.airNames := airNames;
      records := [];
      overrideHeights := None;
    }

    function NumAccessAdapters(): nat {
      |airNames|
    }

    method AddRecord(record: AccessAdapterRecord)
      modifies this
      ensures records == old(records) + [record]
      ensures overrideHeights == old(overrideHeights)
    {
      records := records + [record];
    }

    method SetOverrideTraceHeights(heights: seq<nat>)
      modifies this
      ensures overrideHeights == Some(heights)
      ensures records == old(records)
    {
      overrideHeights := Some(heights);
    }
  }
}
