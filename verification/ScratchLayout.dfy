/** Carving one allocated block into the regions of a scratch space. */
module ScratchLayout {
  import opened Scratch

  const DELAY_SLOT_COUNT: nat := 32
  const PTR: nat := 8
  const QUEUE_MATCH_SIZE: nat := 16

  /** Sizes fixed by the build: the scratch structure (cache-line aligned) and a queue (8-byte aligned). */
  datatype Build = Build(structSize: nat, queueSize: nat)
  {
    predicate Valid() { structSize % 64 == 0 && queueSize % 8 == 0 }
  }

  predicate Words(x: nat) { x % 8 == 0 }

  function RoundUp8(x: nat): (r: nat)
    ensures x <= r < x + 8 && Words(r) && (Words(x) ==> r == x)
  {
    (x + 7) / 8 * 8
  }

  lemma WholeLines(n: nat)
    ensures Words(n * 64) && n * 64 % 64 == 0
  {
    assert n * 64 == 8 * (8 * n);
  }

  function RoundUp64(x: nat): (r: nat)
    ensures x <= r < x + 64 && r % 64 == 0 && Words(r)
  {
    var lines := (x + 63) / 64;
    assert Words(lines * 64) && lines * 64 % 64 == 0 by { WholeLines(lines); }
    lines * 64
  }

  /** Space for n fatbit pointers and n fatbits of the given size. */
  function FatbitArraySize(n: nat, size: nat): nat {
    RoundUp8(RoundUp8(PTR * n) + size * n)
  }

  /** The amount that is allocated for the given capacities. */
  function AllocSize(b: Build, c: Capacities): nat {
    b.structSize + 256 +
    c.queueCount * b.queueSize + 63 + c.bStateSize + c.tStateSize + c.fullStateSize + 63 +
    c.handledKeyFatbitSize + c.activeQueueArraySize + 2 * c.logSize + 2 * c.logSize + 2 * 8 * c.dkeyCount +
    FatbitArraySize(c.anchoredRegionLen, c.anchoredFatbitSize) + c.queueCount * QUEUE_MATCH_SIZE +
    FatbitArraySize(DELAY_SLOT_COUNT, c.delayFatbitSize) +
    8 * c.somStoreCount + c.somFatbitSize + c.somFatbitSize + 8 * c.somStoreCount + 15
  }

  /** What the user of a region relies on: its length and the alignment of its start. */
  datatype Want = Want(len: nat, align: nat)

  function Repeat(n: nat, w: Want): (r: seq<Want>)
    ensures |r| == n
  {
    seq(n, _ => w)
  }

  function FatbitArrayWants(n: nat, size: nat): seq<Want> {
    [Want(8 * n, 8)] + Repeat(n, Want(size, 8))
  }

  /** Queues, SOM stores, delay slots, anchored literal log, queue matches, block state, transient state. */
  function FrontWants(b: Build, c: Capacities): seq<Want> {
    [Want(c.queueCount * b.queueSize, 8), Want(8 * c.somStoreCount, 8), Want(8 * c.somStoreCount, 8)] +
    FatbitArrayWants(32, c.delayFatbitSize) +
    FatbitArrayWants(c.anchoredRegionLen, c.anchoredFatbitSize) +
    [Want(c.queueCount * 16, 8), Want(c.bStateSize, 8), Want(c.tStateSize, 1)]
  }

  /** SOM start logs, active queues, handled roles. */
  function MiddleWants(c: Capacities): seq<Want> {
    [Want(8 * c.dkeyCount, 8), Want(8 * c.dkeyCount, 8), Want(c.activeQueueArraySize, 8),
     Want(c.handledKeyFatbitSize, 8)]
  }

  /** Match logs, SOM logs, SOM sets, full state. */
  function BackWants(c: Capacities): seq<Want> {
    Repeat(4, Want(c.logSize, 8)) + Repeat(2, Want(c.somFatbitSize, 8)) + [Want(c.fullStateSize, 64)]
  }

  function Required(b: Build, c: Capacities): seq<Want> {
    [Want(b.structSize, 64)] + FrontWants(b, c) + MiddleWants(c) + BackWants(c)
  }

  /** Every wanted region starts aligned, regions ascend without overlap, and all lie in [lo, hi). */
  ghost predicate Placed(starts: seq<nat>, wants: seq<Want>, lo: nat, hi: nat) {
    && |starts| == |wants| && lo <= hi
    && (forall i :: 0 <= i < |wants| ==> wants[i].align > 0 && starts[i] % wants[i].align == 0)
    && (forall i :: 0 <= i < |wants| ==> lo <= starts[i] && starts[i] + wants[i].len <= hi)
    && (forall i, j :: 0 <= i < j < |wants| ==> starts[i] + wants[i].len <= starts[j])
  }

  lemma MultipleOf8(n: nat, size: nat)
    requires Words(size)
    ensures Words(size * n) && Words(n * size)
  {
    assert size * n == 8 * (size / 8 * n);
  }

  lemma EightTimes(n: nat)
    ensures Words(8 * n)
  {
  }

  /** The moving cursor. */
  class Carver {
    const base: nat
    var current: nat
    var starts: seq<nat>
    var wants: seq<Want>

    ghost predicate Valid()
      reads this
    {
      Placed(starts, wants, base, current)
    }

    constructor (base: nat)
      ensures Valid() && current == base && this.base == base && wants == []
    {
      this.base, current, starts, wants := base, base, [], [];
    }

    method Align8()
      requires Valid()
      modifies this`current
      ensures Valid() && current == RoundUp8(old(current))
    {
      current := RoundUp8(current);
    }

    method Align64()
      requires Valid()
      modifies this`current
      ensures Valid() && current == RoundUp64(old(current))
    {
      current := RoundUp64(current);
    }

    /** Hand out the next `len` bytes. */
    method Take(len: nat, align: nat)
      requires Valid() && align > 0 && current % align == 0
      modifies this`current, this`starts, this`wants
      ensures Valid() && current == old(current) + len
      ensures wants == old(wants) + [Want(len, align)]
    {
      starts, wants := starts + [current], wants + [Want(len, align)];
      current := current + len;
    }

    /** Hand out a whole number of words, word-aligned. */
    method TakeWords(len: nat)
      requires Valid() && Words(current) && Words(len)
      modifies this`current, this`starts, this`wants
      ensures Valid() && current == old(current) + len && Words(current)
      ensures wants == old(wants) + [Want(len, 8)]
    {
      Take(len, 8);
    }

    /** Hand out n pointers to fatbits and the n fatbits. */
    method TakeFatbitArray(n: nat, size: nat)
      requires Valid() && Words(current) && Words(size)
      modifies this`current, this`starts, this`wants
      ensures Valid() && current == old(current) + FatbitArraySize(n, size) && Words(current)
      ensures wants == old(wants) + FatbitArrayWants(n, size)
    {
      hide *;
      Align8();
      ArraySizes(n, size);
      TakeWords(PTR * n);
      Align8();
      TakeFatbits(n, size);
      Appended(old(wants), [Want(PTR * n, 8)], Repeat(n, Want(size, 8)));
    }

    method TakeFatbits(n: nat, size: nat)
      requires Valid() && Words(current) && Words(size)
      modifies this`current, this`starts, this`wants
      ensures Valid() && current == old(current) + size * n && Words(current)
      ensures wants == old(wants) + Repeat(n, Want(size, 8))
    {
      hide Valid, Words;
      for i := 0 to n
        invariant Valid() && current == old(current) + size * i && Words(current)
        invariant wants == old(wants) + Repeat(i, Want(size, 8))
      {
        assert size * (i + 1) == size * i + size;
        TakeWords(size);
      }
    }
  }

  lemma ArraySizes(n: nat, size: nat)
    requires Words(size)
    ensures Words(PTR * n) && PTR * n + size * n == FatbitArraySize(n, size)
    ensures FatbitArrayWants(n, size) == [Want(PTR * n, 8)] + Repeat(n, Want(size, 8))
  {
    MultipleOf8(n, size);
  }

  lemma Appended<T>(a: seq<T>, b: seq<T>, c: seq<T>)
    ensures a + b + c == a + (b + c)
  {
  }

  /** Fatbit sizes are whole 64-bit words. */
  ghost predicate WholeWords(c: Capacities) {
    && Words(c.anchoredFatbitSize) && Words(c.delayFatbitSize) && Words(c.handledKeyFatbitSize)
    && Words(c.somFatbitSize) && Words(c.activeQueueArraySize) && Words(c.logSize)
  }

  method CarveFront(k: Carver, b: Build, c: Capacities)
    requires k.Valid() && Words(k.current) && b.Valid() && WholeWords(c)
    modifies k
    ensures k.Valid()
    ensures k.current == old(k.current) + c.queueCount * b.queueSize + 8 * c.somStoreCount + 8 * c.somStoreCount +
              FatbitArraySize(DELAY_SLOT_COUNT, c.delayFatbitSize) +
              FatbitArraySize(c.anchoredRegionLen, c.anchoredFatbitSize) +
              c.queueCount * QUEUE_MATCH_SIZE + c.bStateSize + c.tStateSize
    ensures k.wants == old(k.wants) + FrontWants(b, c)
  {
    hide Carver.Valid, FatbitArraySize, FatbitArrayWants;
    MultipleOf8(c.queueCount, b.queueSize);
    k.TakeWords(c.queueCount * b.queueSize);
    k.TakeWords(8 * c.somStoreCount);
    k.TakeWords(8 * c.somStoreCount);
    k.TakeFatbitArray(DELAY_SLOT_COUNT, c.delayFatbitSize);
    k.TakeFatbitArray(c.anchoredRegionLen, c.anchoredFatbitSize);
    k.Align8();
    k.TakeWords(c.queueCount * QUEUE_MATCH_SIZE);
    k.Take(c.bStateSize, 8);
    k.Take(c.tStateSize, 1);
  }

  method CarveMiddle(k: Carver, c: Capacities)
    requires k.Valid() && WholeWords(c)
    modifies k
    ensures k.Valid() && Words(k.current)
    ensures k.current <= old(k.current) + 63 + 2 * 8 * c.dkeyCount + c.activeQueueArraySize + c.handledKeyFatbitSize
    ensures k.wants == old(k.wants) + MiddleWants(c)
  {
    hide Carver.Valid, Words;
    EightTimes(c.dkeyCount);
    k.Align64();
    k.TakeWords(8 * c.dkeyCount);
    k.TakeWords(8 * c.dkeyCount);
    k.TakeWords(c.activeQueueArraySize);
    k.TakeWords(c.handledKeyFatbitSize);
  }

  method CarveBack(k: Carver, c: Capacities)
    requires k.Valid() && WholeWords(c) && Words(k.current)
    modifies k
    ensures k.Valid()
    ensures k.current <= old(k.current) + 4 * c.logSize + 2 * c.somFatbitSize + 63 + c.fullStateSize
    ensures k.wants == old(k.wants) + BackWants(c)
  {
    hide Carver.Valid, Words;
    k.TakeFatbits(4, c.logSize);
    k.TakeFatbits(2, c.somFatbitSize);
    k.Align64();
    k.Take(c.fullStateSize, 64);
  }

  /** The layout of a block at any address: the structure and every region it points into start aligned, do not
      overlap, have the sizes their users need, and end before the block does. */
  method Layout(b: Build, c: Capacities, block: nat) returns (starts: seq<nat>)
    requires b.Valid() && WholeWords(c)
    ensures Placed(starts, Required(b, c), block, block + AllocSize(b, c))
  {
    hide Carver.Valid, Placed, FatbitArraySize, FrontWants, MiddleWants, BackWants;
    var k := new Carver(block);
    k.Align64();
    k.Take(b.structSize, 64);
    k.Align8();
    CarveFront(k, b, c);
    CarveMiddle(k, c);
    CarveBack(k, c);
    starts := k.starts;
    Finished(k, starts, Required(b, c), block + AllocSize(b, c));
  }

  lemma Finished(k: Carver, starts: seq<nat>, wants: seq<Want>, hi: nat)
    requires k.Valid() && k.starts == starts && k.wants == wants && k.current <= hi
    ensures Placed(starts, wants, k.base, hi)
  {
  }
}
