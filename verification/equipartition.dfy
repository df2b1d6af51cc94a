/** Sparse memory images and their equipartitions into fixed-size labelled blocks.

    A memory image maps an address (address_space, pointer) to a value; an absent
    address holds zero. An equipartition with block size n maps a key
    (address_space, label) to a block of n values, the block that starts at
    pointer label * n; an absent key stands for a block of zeros. */
module Equipartitions {

  /** (address_space, pointer) */
  type Address = (nat, nat)
  /** (address_space, label): the block starting at pointer label * n */
  type BlockKey = (nat, nat)
  type MemoryImage = map<Address, nat>
  type Equipartition = map<BlockKey, seq<nat>>

  /** The value of a cell of an image: zero when it was never set. */
  function ValueAt(image: MemoryImage, a: Address): nat {
    if a in image then image[a] else 0
  }

  /** The key of the block of size n that holds address a. */
  function BlockOf(a: Address, n: nat): BlockKey
    requires n > 0
  {
    (a.0, a.1 / n)
  }

  /** The address of slot i of block k. */
  function SlotAddress(k: BlockKey, n: nat, i: nat): Address {
    (k.0, k.1 * n + i)
  }

  /** Every block has exactly n values. */
  ghost predicate IsEquipartition(p: Equipartition, n: nat) {
    forall k :: k in p ==> |p[k]| == n
  }

  /** Reading address a out of an equipartition: slot a % n of block (as, a / n), or zero. */
  function Lookup(p: Equipartition, n: nat, a: Address): nat
    requires n > 0 && IsEquipartition(p, n)
  {
    var k := BlockOf(a, n);
    if k in p then p[k][a.1 % n] else 0
  }

  /** The blocks hit by at least one cell of the image. */
  function HitBlocks(image: MemoryImage, n: nat): set<BlockKey>
    requires n > 0
  {
    set a | a in image :: BlockOf(a, n)
  }

  /** Reference definition of the conversion: one block per hit label, each slot holding
      the image's value at that slot's address (zero where the image has none). */
  function ImageToEquipartition(image: MemoryImage, n: nat): (p: Equipartition)
    requires n > 0
    ensures IsEquipartition(p, n)
    ensures p.Keys == HitBlocks(image, n)
  {
    map k | k in HitBlocks(image, n) :: seq(n, i requires 0 <= i < n => ValueAt(image, SlotAddress(k, n, i)))
  }

  /** p is the equipartition of image with block size n: every cell of the image sits in
      slot a % n of block (as, a / n), every other slot is zero, and only hit blocks exist. */
  ghost predicate PartitionOf(p: Equipartition, image: MemoryImage, n: nat)
    requires n > 0
  {
    && IsEquipartition(p, n)
    && p.Keys == HitBlocks(image, n)
    && (forall a: Address :: a in image ==> p[BlockOf(a, n)][a.1 % n] == image[a])
    && (forall k, i :: k in p && 0 <= i < n && SlotAddress(k, n, i) !in image ==> p[k][i] == 0)
  }

  /** Multiplication by n is monotone. */
  lemma MulMonotone(a: nat, b: nat, n: nat)
    requires a <= b
    ensures a * n <= b * n
  {
  }

  /** Euclidean division by n recovers the quotient and remainder it was built from. */
  lemma DivModOfSlot(q: nat, r: nat, n: nat)
    requires r < n
    ensures (q * n + r) / n == q && (q * n + r) % n == r
  {
    var x := q * n + r;
    var q', r' := x / n, x % n;
    assert x == q' * n + r';
    if q' < q {
      MulMonotone(q' + 1, q, n);
    } else if q < q' {
      MulMonotone(q + 1, q', n);
    }
  }

  /** Address a is slot a % n of block (as, a / n). */
  lemma SlotOfBlock(a: Address, n: nat)
    requires n > 0
    ensures SlotAddress(BlockOf(a, n), n, a.1 % n) == a
  {
  }

  /** Slot i of block k lies in block k, at position i. */
  lemma BlockOfSlot(k: BlockKey, n: nat, i: nat)
    requires i < n
    ensures BlockOf(SlotAddress(k, n, i), n) == k && SlotAddress(k, n, i).1 % n == i
  {
    DivModOfSlot(k.1, i, n);
  }

  /** The reference conversion meets the characterisation. */
  lemma {:induction false} ImageToEquipartitionIsPartition(image: MemoryImage, n: nat)
    requires n > 0
    ensures PartitionOf(ImageToEquipartition(image, n), image, n)
  {
    var p := ImageToEquipartition(image, n);
    forall a: Address | a in image
      ensures p[BlockOf(a, n)][a.1 % n] == image[a]
    {
      var k := BlockOf(a, n);
      assert k in HitBlocks(image, n);
      SlotOfBlock(a, n);
      assert p[k][a.1 % n] == ValueAt(image, SlotAddress(k, n, a.1 % n));
    }
  }

  /** Under the characterisation, slot i of block k holds the image's value at that slot. */
  lemma SlotValue(p: Equipartition, image: MemoryImage, n: nat, k: BlockKey, i: nat)
    requires n > 0 && PartitionOf(p, image, n)
    requires k in p && i < n
    ensures p[k][i] == ValueAt(image, SlotAddress(k, n, i))
  {
    var a := SlotAddress(k, n, i);
    if a in image {
      BlockOfSlot(k, n, i);
      assert p[BlockOf(a, n)][a.1 % n] == image[a];
    }
  }

  /** The characterisation determines the equipartition uniquely. */
  lemma {:induction false} PartitionOfIsUnique(p: Equipartition, image: MemoryImage, n: nat)
    requires n > 0 && PartitionOf(p, image, n)
    ensures p == ImageToEquipartition(image, n)
  {
    var q := ImageToEquipartition(image, n);
    assert p.Keys == q.Keys;
    forall k | k in p
      ensures p[k] == q[k]
    {
      forall i | 0 <= i < n
        ensures p[k][i] == q[k][i]
      {
        SlotValue(p, image, n, k, i);
      }
    }
  }

  /** Round trip: reading slot a % n of block (as, a / n) of the equipartition gives back
      exactly the image's value at a, for every address. */
  lemma {:induction false} EquipartitionRoundTrip(image: MemoryImage, n: nat, a: Address)
    requires n > 0
    ensures Lookup(ImageToEquipartition(image, n), n, a) == ValueAt(image, a)
  {
    var p := ImageToEquipartition(image, n);
    ImageToEquipartitionIsPartition(image, n);
    SlotOfBlock(a, n);
    if a in image {
      assert BlockOf(a, n) in HitBlocks(image, n);
    }
  }

  /** One step of the conversion: the block of a (a fresh zero block if the label was not
      hit yet) gets v in slot a % n. */
  function PlaceCell(p: Equipartition, n: nat, a: Address, v: nat): Equipartition
    requires n > 0
  {
    var key := BlockOf(a, n);
    var block := if key in p then p[key] else seq(n, _ => 0);
    if a.1 % n < |block| then p[key := block[a.1 % n := v]] else p
  }

  /** Placing a new cell adds its block to the hit blocks. */
  lemma HitBlocksInsert(done: MemoryImage, n: nat, a: Address, v: nat)
    requires n > 0
    ensures HitBlocks(done[a := v], n) == HitBlocks(done, n) + {BlockOf(a, n)}
  {
    var done' := done[a := v];
    forall k | k in HitBlocks(done', n) ensures k in HitBlocks(done, n) + {BlockOf(a, n)} {
      var b: Address :| b in done' && BlockOf(b, n) == k;
      if b != a { assert b in done; }
    }
  }

  /** The block of a after placing v: slot a % n is v, every other slot as before. */
  lemma PlaceCellBlock(p: Equipartition, n: nat, a: Address, v: nat)
    requires n > 0 && IsEquipartition(p, n)
    ensures IsEquipartition(PlaceCell(p, n, a, v), n)
    ensures PlaceCell(p, n, a, v) == p[BlockOf(a, n) := PlaceCell(p, n, a, v)[BlockOf(a, n)]]
    ensures PlaceCell(p, n, a, v)[BlockOf(a, n)][a.1 % n] == v
    ensures forall j :: 0 <= j < n && j != a.1 % n ==>
      PlaceCell(p, n, a, v)[BlockOf(a, n)][j] == (if BlockOf(a, n) in p then p[BlockOf(a, n)][j] else 0)
  {
  }

  /** After placing a new cell, every cell of the extended image is in its slot. */
  lemma PlaceCellPlacement(p: Equipartition, done: MemoryImage, n: nat, a: Address, v: nat)
    requires n > 0 && PartitionOf(p, done, n) && a !in done
    ensures forall b: Address :: b in done[a := v] ==>
      && BlockOf(b, n) in PlaceCell(p, n, a, v)
      && b.1 % n < |PlaceCell(p, n, a, v)[BlockOf(b, n)]|
      && PlaceCell(p, n, a, v)[BlockOf(b, n)][b.1 % n] == done[a := v][b]
  {
    var p' := PlaceCell(p, n, a, v);
    PlaceCellBlock(p, n, a, v);
    forall b: Address | b in done[a := v]
      ensures BlockOf(b, n) in p' && b.1 % n < |p'[BlockOf(b, n)]| && p'[BlockOf(b, n)][b.1 % n] == done[a := v][b]
    {
      if b != a {
        PlaceCellOther(p, done, n, a, v, b);
      }
    }
  }

  /** Placing a new cell leaves the slot of every other cell of the image as it was. */
  lemma PlaceCellOther(p: Equipartition, done: MemoryImage, n: nat, a: Address, v: nat, b: Address)
    requires n > 0 && PartitionOf(p, done, n) && b in done && b != a
    ensures BlockOf(b, n) in PlaceCell(p, n, a, v)
    ensures PlaceCell(p, n, a, v)[BlockOf(b, n)][b.1 % n] == done[b]
  {
    PlaceCellBlock(p, n, a, v);
    assert BlockOf(b, n) in p;
    if BlockOf(b, n) == BlockOf(a, n) {
      SlotOfBlock(a, n);
      SlotOfBlock(b, n);
      assert b.1 % n != a.1 % n;
    }
  }

  /** After placing a new cell, slots not hit by the extended image are still zero. */
  lemma PlaceCellZeros(p: Equipartition, done: MemoryImage, n: nat, a: Address, v: nat)
    requires n > 0 && PartitionOf(p, done, n) && a !in done
    ensures forall k, i :: k in PlaceCell(p, n, a, v) && 0 <= i < n && SlotAddress(k, n, i) !in done[a := v] ==>
      PlaceCell(p, n, a, v)[k][i] == 0
  {
    var p' := PlaceCell(p, n, a, v);
    PlaceCellBlock(p, n, a, v);
    SlotOfBlock(a, n);
    assert SlotAddress(BlockOf(a, n), n, a.1 % n) in done[a := v];
  }

  /** Placing a new cell keeps the characterisation, for the image extended by that cell. */
  lemma {:induction false} PlaceCellStep(p: Equipartition, done: MemoryImage, n: nat, a: Address, v: nat)
    requires n > 0 && PartitionOf(p, done, n) && a !in done
    ensures PartitionOf(PlaceCell(p, n, a, v), done[a := v], n)
  {
    PlaceCellBlock(p, n, a, v);
    HitBlocksInsert(done, n, a, v);
    PlaceCellPlacement(p, done, n, a, v);
    PlaceCellZeros(p, done, n, a, v);
  }

  /** memory_image_to_equipartition: fills the result block by block, creating a zero block
      the first time a label is hit and then writing the cell's value into its slot. */
  method MemoryImageToEquipartition(image: MemoryImage, n: nat) returns (p: Equipartition)
    requires n > 0
    ensures p == ImageToEquipartition(image, n)
  {
    p := map[];
    var todo := image.Keys;
    ghost var done: MemoryImage := map[];
    while todo != {}
      invariant done.Keys == image.Keys - todo
      invariant forall a :: a in done ==> done[a] == image[a]
      invariant PartitionOf(p, done, n)
      decreases todo
    {
      var a: Address :| a in todo;
      var key := BlockOf(a, n);
      var shift := a.1 % n;
      var block := if key in p then p[key] else seq(n, _ => 0);
      PlaceCellStep(p, done, n, a, image[a]);
      p := p[key := block[shift := image[a]]];
      todo := todo - {a};
      done := done[a := image[a]];
    }
    assert done == image;
    PartitionOfIsUnique(p, image, n);
  }

  /** The cells an equipartition covers: every slot of every block. */
  function CoveredAddresses(p: Equipartition, n: nat): set<Address> {
    set k, i | k in p && 0 <= i < n :: SlotAddress(k, n, i)
  }

  /** The inverse direction, used to load an equipartition into memory: one cell per slot
      of every block present. */
  function EquipartitionToImage(p: Equipartition, n: nat): (image: MemoryImage)
    requires n > 0 && IsEquipartition(p, n)
  {
    map a | a in CoveredAddresses(p, n) :: Lookup(p, n, a)
  }

  /** Loading an equipartition as an image preserves every cell's value. */
  lemma {:induction false} EquipartitionToImageValues(p: Equipartition, n: nat, a: Address)
    requires n > 0 && IsEquipartition(p, n)
    ensures ValueAt(EquipartitionToImage(p, n), a) == Lookup(p, n, a)
  {
    if BlockOf(a, n) in p {
      SlotOfBlock(a, n);
      assert a in CoveredAddresses(p, n);
    }
  }

  /** Converting an image to blocks and loading the blocks back yields the same memory
      (cells absent from the image come back as explicit zeros). */
  lemma {:induction false} ImageReloadRoundTrip(image: MemoryImage, n: nat, a: Address)
    requires n > 0
    ensures ValueAt(EquipartitionToImage(ImageToEquipartition(image, n), n), a) == ValueAt(image, a)
  {
    EquipartitionToImageValues(ImageToEquipartition(image, n), n, a);
    EquipartitionRoundTrip(image, n, a);
  }

  /** Loading an equipartition and cutting the loaded memory back into blocks gives back
      exactly the equipartition: every block present comes back, and no other. */
  lemma {:induction false} PartitionReloadRoundTrip(p: Equipartition, n: nat)
    requires n > 0 && IsEquipartition(p, n)
    ensures ImageToEquipartition(EquipartitionToImage(p, n), n) == p
  {
    var image := EquipartitionToImage(p, n);
    forall k | k in p
      ensures k in HitBlocks(image, n)
    {
      BlockOfSlot(k, n, 0);
      assert SlotAddress(k, n, 0) in CoveredAddresses(p, n);
    }
    forall a | a in image
      ensures BlockOf(a, n) in p && image[a] == p[BlockOf(a, n)][a.1 % n]
    {
      var k, i :| k in p && 0 <= i < n && a == SlotAddress(k, n, i);
      BlockOfSlot(k, n, i);
    }
    forall k, i | k in p && 0 <= i < n
      ensures SlotAddress(k, n, i) in image
    {
      assert SlotAddress(k, n, i) in CoveredAddresses(p, n);
    }
    assert PartitionOf(p, image, n);
    PartitionOfIsUnique(p, image, n);
  }
}
