/** Trace heights of the memory AIRs, per interface variant, in the fixed order
    [boundary, merkle (persistent only), access adapters...], and their rounding to powers
    of two. */
module TraceHeights {

  /** Position of the boundary AIR among the memory AIRs. */
  const BOUNDARY_AIR_OFFSET: nat := 0
  /** Position of the Merkle AIR among the memory AIRs (persistent only). */
  const MERKLE_AIR_OFFSET: nat := 1

  datatype VolatileMemoryTraceHeights = VolatileMemoryTraceHeights(
    boundary: nat, accessAdapters: seq<nat>)

  datatype PersistentMemoryTraceHeights = PersistentMemoryTraceHeights(
    boundary: nat, merkle: nat, accessAdapters: seq<nat>)

  datatype MemoryTraceHeights =
    | Volatile(volatile: VolatileMemoryTraceHeights)
    | Persistent(persistent: PersistentMemoryTraceHeights)
  {
    function Boundary(): nat {
      match this
      case Volatile(oh) => oh.boundary
      case Persistent(oh) => oh.boundary
    }

    function AccessAdapters(): seq<nat> {
      match this
      case Volatile(oh) => oh.accessAdapters
      case Persistent(oh) => oh.accessAdapters
    }

    /** Number of AIRs before the access adapters. */
    function AdapterOffset(): nat {
      if Persistent? then MERKLE_AIR_OFFSET + 1 else BOUNDARY_AIR_OFFSET + 1
    }
  }

  /** flatten: the heights in AIR order. */
  function Flatten(h: MemoryTraceHeights): (r: seq<nat>)
    ensures |r| == h.AdapterOffset() + |h.AccessAdapters()|
    ensures r[BOUNDARY_AIR_OFFSET] == h.Boundary()
    ensures h.Persistent? ==> r[MERKLE_AIR_OFFSET] == h.persistent.merkle
    ensures r[h.AdapterOffset()..] == h.AccessAdapters()
  {
    match h
    case Volatile(oh) => [oh.boundary] + oh.accessAdapters
    case Persistent(oh) => [oh.boundary, oh.merkle] + oh.accessAdapters
  }

  ghost predicate IsPowerOfTwo(x: nat)
    decreases x
  {
    x == 1 || (x >= 2 && x % 2 == 0 && IsPowerOfTwo(x / 2))
  }

  /** Climbs from the power of two p by doubling until x is reached. */
  function DoubleUntil(p: nat, x: nat): (r: nat)
    requires IsPowerOfTwo(p) && (p == 1 || p / 2 < x)
    ensures IsPowerOfTwo(r) && x <= r && (r == 1 || r / 2 < x)
    decreases x - p
  {
    if x <= p then p else DoubleUntil(2 * p, x)
  }

  /** usize::next_power_of_two: a power of two at least x whose half is below x (so 0 and 1
      both give 1). */
  function NextPowerOfTwo(x: nat): (r: nat)
    ensures IsPowerOfTwo(r) && x <= r && (r == 1 || r / 2 < x)
  {
    DoubleUntil(1, x)
  }

  /** next_power_of_two_or_zero: as NextPowerOfTwo, except that 0 stays 0. */
  function NextPowerOfTwoOrZero(x: nat): (r: nat)
    ensures x == 0 ==> r == 0
    ensures x > 0 ==> IsPowerOfTwo(r) && x <= r && (r == 1 || r / 2 < x)
  {
    if x == 0 then 0 else NextPowerOfTwo(x)
  }

  /** Of two distinct powers of two, the smaller is at most half the larger. */
  lemma {:induction false} PowerOfTwoBelow(a: nat, b: nat)
    requires IsPowerOfTwo(a) && IsPowerOfTwo(b) && a < b
    ensures a <= b / 2
    decreases b
  {
    if a > 1 && a != b / 2 {
      PowerOfTwoBelow(a / 2, b / 2);
    }
  }

  /** NextPowerOfTwo is the least power of two at least x. */
  lemma {:induction false} NextPowerOfTwoIsLeast(x: nat, q: nat)
    requires IsPowerOfTwo(q) && x <= q
    ensures NextPowerOfTwo(x) <= q
  {
    var r := NextPowerOfTwo(x);
    if q < r {
      PowerOfTwoBelow(q, r);
    }
  }

  /** The rounding applied to every height: keepZero selects the _or_zero flavour. */
  function Round(x: nat, keepZero: bool): nat {
    if keepZero then NextPowerOfTwoOrZero(x) else NextPowerOfTwo(x)
  }

  /** The iter_mut loop: rounds every height of the list in place. */
  method RoundEach(heights: seq<nat>, keepZero: bool) returns (r: seq<nat>)
    ensures |r| == |heights|
    ensures forall i :: 0 <= i < |r| ==> r[i] == Round(heights[i], keepZero)
  {
    r := heights;
    var i := 0;
    while i < |r|
      invariant 0 <= i <= |r| == |heights|
      invariant forall j :: 0 <= j < i ==> r[j] == Round(heights[j], keepZero)
      invariant forall j :: i <= j < |r| ==> r[j] == heights[j]
    {
      r := r[i := Round(r[i], keepZero)];
      i := i + 1;
    }
  }

  /** Both heights have the same variant and the same number of adapter entries. */
  predicate SameShape(h: MemoryTraceHeights, g: MemoryTraceHeights) {
    h.Persistent? == g.Persistent? && |h.AccessAdapters()| == |g.AccessAdapters()|
  }

  /** Rounds every height of the record, boundary and Merkle included. */
  method RoundAll(h: MemoryTraceHeights, keepZero: bool) returns (r: MemoryTraceHeights)
    ensures SameShape(h, r) && |Flatten(r)| == |Flatten(h)|
    ensures forall i :: 0 <= i < |Flatten(r)| ==> Flatten(r)[i] == Round(Flatten(h)[i], keepZero)
  {
    match h
    case Volatile(oh) =>
      var adapters := RoundEach(oh.accessAdapters, keepZero);
      r := Volatile(VolatileMemoryTraceHeights(Round(oh.boundary, keepZero), adapters));
    case Persistent(oh) =>
      var adapters := RoundEach(oh.accessAdapters, keepZero);
      r := Persistent(PersistentMemoryTraceHeights(
        Round(oh.boundary, keepZero), Round(oh.merkle, keepZero), adapters));
    forall i | 0 <= i < |Flatten(r)|
      ensures Flatten(r)[i] == Round(Flatten(h)[i], keepZero)
    {
      var k := h.AdapterOffset();
      if i >= k {
        assert Flatten(r)[i] == Flatten(r)[k..][i - k];
        assert Flatten(h)[i] == Flatten(h)[k..][i - k];
      }
    }
  }

  /** round_to_next_power_of_two: every height becomes the least power of two at least it,
      so 0 becomes 1; the variant and the number of adapter entries are kept. */
  method RoundToNextPowerOfTwo(h: MemoryTraceHeights) returns (r: MemoryTraceHeights)
    ensures SameShape(h, r) && |Flatten(r)| == |Flatten(h)|
    ensures forall i :: 0 <= i < |Flatten(r)| ==>
      IsPowerOfTwo(Flatten(r)[i]) && Flatten(h)[i] <= Flatten(r)[i] &&
      (Flatten(r)[i] == 1 || Flatten(r)[i] / 2 < Flatten(h)[i])
  {
    r := RoundAll(h, false);
  }

  /** round_to_next_power_of_two_or_zero: as above, except that heights of 0 stay 0. */
  method RoundToNextPowerOfTwoOrZero(h: MemoryTraceHeights) returns (r: MemoryTraceHeights)
    ensures SameShape(h, r) && |Flatten(r)| == |Flatten(h)|
    ensures forall i :: 0 <= i < |Flatten(r)| ==>
      (Flatten(h)[i] == 0 ==> Flatten(r)[i] == 0) &&
      (Flatten(h)[i] > 0 ==>
         && IsPowerOfTwo(Flatten(r)[i])
         && Flatten(h)[i] <= Flatten(r)[i]
         && (Flatten(r)[i] == 1 || Flatten(r)[i] / 2 < Flatten(h)[i]))
  {
    r := RoundAll(h, true);
  }
}
