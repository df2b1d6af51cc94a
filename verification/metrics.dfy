/** Per-instruction profiling bookkeeping of the VM: how often each opcode ran, how many
    trace cells each opcode added to each AIR, and which function the pc is in. */
module Metrics {
  import opened Wrappers

  /** (dsl instruction, opcode name) */
  type OpcodeKey = (Option<string>, string)
  /** (dsl instruction, opcode name, AIR name) */
  type CellKey = (Option<string>, string, string)

  /** A function's code range [start, end] and its name. */
  datatype FnBound = FnBound(start: nat, end: nat, name: string)

  /** The entry of a counter map, an absent key counting as 0. */
  function Get<K>(m: map<K, nat>, key: K): nat {
    if key in m then m[key] else 0
  }

  /** Adds d to the entry of key, inserting it at 0 first when absent. */
  function AddTo<K(!new)>(m: map<K, nat>, key: K, d: nat): (r: map<K, nat>)
    ensures r.Keys == m.Keys + {key}
    ensures Get(r, key) == Get(m, key) + d
    ensures forall k :: k != key ==> Get(r, k) == Get(m, k)
  {
    m[key := Get(m, key) + d]
  }

  /** The sum of all entries of a counter map. */
  ghost function Total<K>(m: map<K, nat>): nat
    decreases |m.Keys|
  {
    if m == map[] then 0
    else
      var k :| k in m;
      m[k] + Total(m - {k})
  }

  /** Any entry can be taken out of the total first. */
  lemma {:induction false} TotalRemove<K>(m: map<K, nat>, x: K)
    requires x in m
    ensures Total(m) == m[x] + Total(m - {x})
    decreases |m.Keys|
  {
    var y :| y in m && Total(m) == m[y] + Total(m - {y});
    if y != x {
      TotalRemove(m - {y}, x);
      TotalRemove(m - {x}, y);
      assert m - {y} - {x} == m - {x} - {y};
    }
  }

  /** Adding d to one entry adds d to the total. */
  lemma TotalAddTo<K(!new)>(m: map<K, nat>, key: K, d: nat)
    ensures Total(AddTo(m, key, d)) == Total(m) + d
  {
    var r := AddTo(m, key, d);
    TotalRemove(r, key);
    if key in m {
      TotalRemove(m, key);
      assert r - {key} == m - {key};
    } else {
      assert r - {key} == m;
    }
  }

  function Min3(a: nat, b: nat, c: nat): (r: nat)
    ensures r <= a && r <= b && r <= c && (r == a || r == b || r == c)
  {
    if a <= b && a <= c then a else if b <= c then b else c
  }

  /** Trace cells grow: at every position the new count is at least the previous one. */
  ghost predicate Grows(now: seq<nat>, prev: seq<nat>, n: nat)
    requires n <= |now| && n <= |prev|
  {
    forall j :: 0 <= j < n ==> prev[j] <= now[j]
  }

  /** The trace-cell map after the first n positions of one instruction's update: every
      position whose count changed adds its growth to (dsl, opcode, its AIR). */
  function CellsAfter(cells: map<CellKey, nat>, key: OpcodeKey, airNames: seq<string>,
                      now: seq<nat>, prev: seq<nat>, n: nat): map<CellKey, nat>
    requires n <= |airNames| && n <= |now| && n <= |prev| && Grows(now, prev, n)
  {
    if n == 0 then cells
    else
      var before := CellsAfter(cells, key, airNames, now, prev, n - 1);
      if prev[n - 1] != now[n - 1] then AddTo(before, (key.0, key.1, airNames[n - 1]), now[n - 1] - prev[n - 1])
      else before
  }

  /** The growth of all positions below n that belong to the given AIR. */
  function CellDelta(airNames: seq<string>, now: seq<nat>, prev: seq<nat>, n: nat, air: string): nat
    requires n <= |airNames| && n <= |now| && n <= |prev| && Grows(now, prev, n)
  {
    if n == 0 then 0
    else CellDelta(airNames, now, prev, n - 1, air) + (if airNames[n - 1] == air then now[n - 1] - prev[n - 1] else 0)
  }

  /** Some position below n of the given AIR changed its count. */
  ghost predicate AirChanged(airNames: seq<string>, now: seq<nat>, prev: seq<nat>, n: nat, air: string)
    requires n <= |airNames| && n <= |now| && n <= |prev|
  {
    exists j :: 0 <= j < n && airNames[j] == air && now[j] != prev[j]
  }

  /** The effect of an update on the trace-cell map, key by key: an entry of the running
      instruction grows by its AIR's total growth and appears exactly when it was there or
      its AIR changed; every other entry stays as it was. */
  lemma {:induction false} CellsAfterEffect(cells: map<CellKey, nat>, key: OpcodeKey, airNames: seq<string>,
                                            now: seq<nat>, prev: seq<nat>, n: nat, k: CellKey)
    requires n <= |airNames| && n <= |now| && n <= |prev| && Grows(now, prev, n)
    ensures (k.0, k.1) == key ==>
      && Get(CellsAfter(cells, key, airNames, now, prev, n), k) == Get(cells, k) + CellDelta(airNames, now, prev, n, k.2)
      && (k in CellsAfter(cells, key, airNames, now, prev, n) <==> k in cells || AirChanged(airNames, now, prev, n, k.2))
    ensures (k.0, k.1) != key ==>
      && (k in CellsAfter(cells, key, airNames, now, prev, n) <==> k in cells)
      && Get(CellsAfter(cells, key, airNames, now, prev, n), k) == Get(cells, k)
  {
    if n > 0 {
      CellsAfterEffect(cells, key, airNames, now, prev, n - 1, k);
      if (k.0, k.1) == key {
        if airNames[n - 1] == k.2 && now[n - 1] != prev[n - 1] {
          assert AirChanged(airNames, now, prev, n, k.2);
        }
        if AirChanged(airNames, now, prev, n, k.2) {
          var j :| 0 <= j < n && airNames[j] == k.2 && now[j] != prev[j];
          if j < n - 1 {
            assert AirChanged(airNames, now, prev, n - 1, k.2);
          }
        }
      }
    }
  }

  /** The greatest key at most pc, if any. */
  function FloorKey(keys: set<nat>, pc: nat): (r: Option<nat>)
    ensures r.Some? ==> r.value in keys && r.value <= pc && forall k :: k in keys && k <= pc ==> k <= r.value
    ensures r.None? ==> forall k :: k in keys ==> pc < k
    decreases pc
  {
    if pc in keys then Some(pc)
    else if pc == 0 then None
    else FloorKey(keys, pc - 1)
  }

  class VmMetrics {
    /** How many times each (dsl, opcode) ran. */
    var counts: map<OpcodeKey, nat>
    /** How many trace cells each (dsl, opcode) added to each AIR. */
    var traceCells: map<CellKey, nat>
    /** Function bounds keyed by their start address. */
    var fnBounds: map<nat, FnBound>
    var currentFn: FnBound
    /** Trace cells per AIR as of the previous instruction. */
    var currentTraceCells: seq<nat>

    constructor (fnBounds: map<nat, FnBound>)
      ensures counts == map[] && traceCells == map[] && currentTraceCells == []
      ensures this.fnBounds == fnBounds && currentFn == FnBound(0, 0, "")
    {
      counts := map[];
      traceCells := map[];
      this.fnBounds := fnBounds;
      currentFn := FnBound(0, 0, "");
      currentTraceCells := [];
    }

    /** update_trace_cells: counts one more run of (dsl, opcode) and charges it with the
        growth of each AIR's trace cells over the positions the three lists share. */
    method UpdateTraceCells(airNames: seq<string>, nowTraceCells: seq<nat>, opcodeName: string, dslInstr: Option<string>)
      requires Grows(nowTraceCells, currentTraceCells, Min3(|airNames|, |nowTraceCells|, |currentTraceCells|))
      modifies this
      ensures counts == AddTo(old(counts), (dslInstr, opcodeName), 1)
      ensures Total(counts) == Total(old(counts)) + 1
      ensures traceCells == CellsAfter(old(traceCells), (dslInstr, opcodeName), airNames, nowTraceCells,
                                       old(currentTraceCells), Min3(|airNames|, |nowTraceCells|, |old(currentTraceCells)|))
      ensures forall k: CellKey :: (k.0, k.1) == (dslInstr, opcodeName) ==>
        Get(traceCells, k) == Get(old(traceCells), k) +
          CellDelta(airNames, nowTraceCells, old(currentTraceCells), Min3(|airNames|, |nowTraceCells|, |old(currentTraceCells)|), k.2)
      ensures forall k: CellKey :: (k.0, k.1) != (dslInstr, opcodeName) ==>
        (k in traceCells <==> k in old(traceCells)) && Get(traceCells, k) == Get(old(traceCells), k)
      ensures forall k :: k in old(counts) ==> k in counts && old(counts)[k] <= counts[k]
      ensures forall k :: k in old(traceCells) ==> k in traceCells && old(traceCells)[k] <= traceCells[k]
      ensures currentTraceCells == nowTraceCells
      ensures fnBounds == old(fnBounds) && currentFn == old(currentFn)
    {
      var key := (dslInstr, opcodeName);
      counts := AddTo(counts, key, 1);
      TotalAddTo(old(counts), key, 1);
      var n := Min3(|airNames|, |nowTraceCells|, |currentTraceCells|);
      ChargeCells(key, airNames, nowTraceCells, n);
      forall k: CellKey
        ensures (k.0, k.1) == key ==>
          Get(traceCells, k) == Get(old(traceCells), k) + CellDelta(airNames, nowTraceCells, currentTraceCells, n, k.2)
        ensures (k.0, k.1) != key ==>
          (k in traceCells <==> k in old(traceCells)) && Get(traceCells, k) == Get(old(traceCells), k)
        ensures k in old(traceCells) ==> k in traceCells && old(traceCells)[k] <= traceCells[k]
      {
        CellsAfterEffect(old(traceCells), key, airNames, nowTraceCells, currentTraceCells, n, k);
      }
      currentTraceCells := nowTraceCells;
    }

    /** The loop of update_trace_cells: for each of the first n positions whose count
        changed, adds the growth to the entry of (key, AIR at that position). */
    method ChargeCells(key: OpcodeKey, airNames: seq<string>, nowTraceCells: seq<nat>, n: nat)
      requires n <= |airNames| && n <= |nowTraceCells| && n <= |currentTraceCells|
      requires Grows(nowTraceCells, currentTraceCells, n)
      modifies this
      ensures counts == old(counts) && currentTraceCells == old(currentTraceCells)
      ensures traceCells == CellsAfter(old(traceCells), key, airNames, nowTraceCells, old(currentTraceCells), n)
      ensures fnBounds == old(fnBounds) && currentFn == old(currentFn)
    {
      var i := 0;
      while i < n
        invariant 0 <= i <= n
        invariant counts == old(counts) && currentTraceCells == old(currentTraceCells)
        invariant fnBounds == old(fnBounds) && currentFn == old(currentFn)
        invariant traceCells == CellsAfter(old(traceCells), key, airNames, nowTraceCells, currentTraceCells, i)
      {
        var nowValue := nowTraceCells[i];
        var prevValue := currentTraceCells[i];
        if prevValue != nowValue {
          traceCells := AddTo(traceCells, (key.0, key.1, airNames[i]), nowValue - prevValue);
        }
        i := i + 1;
      }
    }

    /** update_current_fn: with function bounds known and pc outside the current function,
        moves to the function with the greatest start at most pc; when there is none, the
        unwrap fails and the result is false. */
    method UpdateCurrentFn(pc: nat) returns (ok: bool)
      modifies this
      ensures (fnBounds == map[] || old(currentFn).start <= pc <= old(currentFn).end) ==> ok && currentFn == old(currentFn)
      ensures fnBounds != map[] && !(old(currentFn).start <= pc <= old(currentFn).end) ==>
        match FloorKey(fnBounds.Keys, pc)
        case None => !ok && currentFn == old(currentFn)
        case Some(start) => ok && currentFn == fnBounds[start]
      ensures fnBounds == old(fnBounds) && counts == old(counts) && traceCells == old(traceCells)
      ensures currentTraceCells == old(currentTraceCells)
    {
      ok := true;
      if fnBounds != map[] && (pc < currentFn.start || pc > currentFn.end) {
        match FloorKey(fnBounds.Keys, pc) {
          case None =>
            ok := false;
          case Some(start) =>
            currentFn := fnBounds[start];
        }
      }
    }
  }
}
