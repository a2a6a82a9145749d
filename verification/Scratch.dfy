/** Scratch space: capacities that only grow, and the carving of one block into regions. */
module Scratch {
  import opened Common
  import MultibitBuild

  datatype Mode = Block | Streaming | Vectored

  /** What a compiled database asks of scratch. */
  datatype Rose = Rose(mode: Mode, anchoredDistance: nat, anchoredFatbitSize: nat, delayFatbitSize: nat,
                       handledKeyFatbitSize: nat, tStateSize: nat, somLocationCount: nat, somLocationFatbitSize: nat,
                       queueCount: nat, activeQueueArraySize: nat, stateEnd: nat, scratchStateSize: nat,
                       dkeyCount: nat, dkeyLogSize: nat)

  const STREAM_HEADER: nat := 16
  const SCRATCH_MAGIC: nat := 0x544F4259

  /** Block state that the database keeps in scratch. */
  function BlockStateSize(r: Rose): nat {
    match r.mode
    case Block => r.stateEnd
    case Vectored => STREAM_HEADER + r.stateEnd
    case Streaming => 0
  }

  /** The sizing fields of a scratch region. */
  datatype Capacities = Capacities(anchoredRegionLen: nat, anchoredFatbitSize: nat, delayFatbitSize: nat,
                                   handledKeyFatbitSize: nat, tStateSize: nat, somStoreCount: nat, somFatbitSize: nat,
                                   queueCount: nat, activeQueueArraySize: nat, bStateSize: nat, fullStateSize: nat,
                                   dkeyCount: nat, logSize: nat)

  const NOTHING := Capacities(0, 0, 0, 0, 0, 0, 0, 0, 0, 0, 0, 0, 0)

  ghost predicate AtLeast(a: Capacities, b: Capacities) {
    && a.anchoredRegionLen >= b.anchoredRegionLen && a.anchoredFatbitSize >= b.anchoredFatbitSize
    && a.delayFatbitSize >= b.delayFatbitSize && a.handledKeyFatbitSize >= b.handledKeyFatbitSize
    && a.tStateSize >= b.tStateSize && a.somStoreCount >= b.somStoreCount && a.somFatbitSize >= b.somFatbitSize
    && a.queueCount >= b.queueCount && a.activeQueueArraySize >= b.activeQueueArraySize
    && a.bStateSize >= b.bStateSize && a.fullStateSize >= b.fullStateSize
    && a.dkeyCount >= b.dkeyCount && a.logSize >= b.logSize
  }

  function Needs(r: Rose): Capacities {
    Capacities(r.anchoredDistance, r.anchoredFatbitSize, r.delayFatbitSize, r.handledKeyFatbitSize, r.tStateSize,
               r.somLocationCount, r.somLocationFatbitSize, r.queueCount, r.activeQueueArraySize, BlockStateSize(r),
               r.scratchStateSize, r.dkeyCount, r.dkeyLogSize)
  }

  function Max(a: nat, b: nat): nat { if b > a then b else a }

  /** Capacities raised to what a database needs. The log size goes with the larger key count. */
  function Raised(c: Capacities, r: Rose): Capacities {
    Capacities(Max(c.anchoredRegionLen, r.anchoredDistance), Max(c.anchoredFatbitSize, r.anchoredFatbitSize),
               Max(c.delayFatbitSize, r.delayFatbitSize), Max(c.handledKeyFatbitSize, r.handledKeyFatbitSize),
               Max(c.tStateSize, r.tStateSize), Max(c.somStoreCount, r.somLocationCount),
               Max(c.somFatbitSize, r.somLocationFatbitSize), Max(c.queueCount, r.queueCount),
               Max(c.activeQueueArraySize, r.activeQueueArraySize), Max(c.bStateSize, BlockStateSize(r)),
               Max(c.fullStateSize, r.scratchStateSize), Max(c.dkeyCount, r.dkeyCount),
               if r.dkeyCount > c.dkeyCount then r.dkeyLogSize else c.logSize)
  }

  /** A scratch region as its owner sees it. */
  class ScratchRegion {
    var address: nat
    var magic: nat
    var caps: Capacities

    constructor (address: nat, caps: Capacities)
      ensures this.address == address && magic == 0x544F4259 && this.caps == caps
    {
      this.address, magic, this.caps := address, SCRATCH_MAGIC, caps;
    }

    /** The check made by every scan call. */
    predicate ValidFor(r: Rose)
      reads this
    {
      && address % 64 == 0 && magic == SCRATCH_MAGIC
      && (r.mode.Block? ==> r.stateEnd <= caps.bStateSize)
      && r.queueCount <= caps.queueCount
    }
  }

  /** Raise a prototype's fields, one by one, to what a database needs. */
  class Prototype {
    var caps: Capacities
    var resize: bool

    constructor (caps: Capacities, resize: bool)
      ensures this.caps == caps && this.resize == resize
    {
      this.caps, this.resize := caps, resize;
    }

    method Raise(r: Rose)
      modifies this
      ensures caps == Raised(old(caps), r)
      ensures resize <==> old(resize) || caps != old(caps)
    {
      hide Max, BlockStateSize;
      var c := caps;
      var anchoredRegionLen := Grow(c.anchoredRegionLen, r.anchoredDistance);
      var anchoredFatbitSize := Grow(c.anchoredFatbitSize, r.anchoredFatbitSize);
      var delayFatbitSize := Grow(c.delayFatbitSize, r.delayFatbitSize);
      var handledKeyFatbitSize := Grow(c.handledKeyFatbitSize, r.handledKeyFatbitSize);
      var tStateSize := Grow(c.tStateSize, r.tStateSize);
      var somStoreCount := Grow(c.somStoreCount, r.somLocationCount);
      var somFatbitSize := Grow(c.somFatbitSize, r.somLocationFatbitSize);
      var queueCount := Grow(c.queueCount, r.queueCount);
      var activeQueueArraySize := Grow(c.activeQueueArraySize, r.activeQueueArraySize);
      var bStateSize := Grow(c.bStateSize, BlockStateSize(r));
      var fullStateSize := Grow(c.fullStateSize, r.scratchStateSize);
      var logSize := c.logSize;
      if r.dkeyCount > c.dkeyCount {
        logSize := r.dkeyLogSize;
      }
      var dkeyCount := Grow(c.dkeyCount, r.dkeyCount);
      caps := Capacities(anchoredRegionLen, anchoredFatbitSize, delayFatbitSize, handledKeyFatbitSize, tStateSize,
                         somStoreCount, somFatbitSize, queueCount, activeQueueArraySize, bStateSize, fullStateSize,
                         dkeyCount, logSize);
    }

    /** One field: raised, and noted, only if the database needs more. */
    method Grow(have: nat, need: nat) returns (size: nat)
      modifies this`resize
      ensures size == Max(have, need)
      ensures resize == (old(resize) || need > have)
      ensures size == have <==> need <= have
    {
      size := have;
      if need > have {
        resize := true;
        size := need;
      }
    }
  }

  /** Outcome of an allocation call: no memory, or a scratch region. */
  datatype AllocResult = NoMemory | Allocated(scratch: ScratchRegion)

  /** What the allocator answers in one call: whether there is room for the prototype used for sizing, and where the new
      block is, if there is one. */
  datatype Memory = Memory(prototype: bool, block: Option<nat>)

  /** The capacities that a call starts from. */
  function Have(scratch: ScratchRegion?): Capacities
    reads scratch
  {
    if scratch == null then NOTHING else scratch.caps
  }

  /** Grow an existing region, or make a new one. The prototype is allocated even when nothing has to grow. */
  method AllocScratch(r: Rose, scratch: ScratchRegion?, memory: Memory) returns (res: AllocResult)
    requires scratch != null ==> scratch.address % 64 == 0 && scratch.magic == SCRATCH_MAGIC
    ensures res.NoMemory? <==>
              !memory.prototype || (memory.block.None? && (scratch == null || Raised(Have(scratch), r) != Have(scratch)))
    ensures res.Allocated? ==>
              && res.scratch.address % 64 == 0 && res.scratch.magic == SCRATCH_MAGIC
              && res.scratch.caps == Raised(old(Have(scratch)), r)
              && (res.scratch == scratch || fresh(res.scratch))
              && (res.scratch == scratch <==> scratch != null && Raised(old(Have(scratch)), r) == old(Have(scratch)))
  {
    if !memory.prototype {
      return NoMemory;
    }
    var proto := new Prototype(if scratch == null then NOTHING else scratch.caps, scratch == null);
    proto.Raise(r);
    if proto.resize {
      if memory.block.None? {
        return NoMemory;
      }
      var s := new ScratchRegion((memory.block.value + 63) / 64 * 64, proto.caps);
      return Allocated(s);
    }
    return Allocated(scratch);
  }

  /** The compiler sizes the dedupe log as a fatbit with one bit per key. */
  predicate Compiled(r: Rose) { r.dkeyLogSize == MultibitBuild.FatbitSize(r.dkeyCount) }

  /** Capacities after serving the databases in order. */
  ghost function RaisedAll(dbs: seq<Rose>): Capacities {
    if dbs == [] then NOTHING else Raised(RaisedAll(dbs[..|dbs| - 1]), dbs[|dbs| - 1])
  }

  /** What is needed by a database without dedupe keys may include an empty log that was never sized. */
  ghost predicate Covers(c: Capacities, r: Rose) {
    AtLeast(c, if r.dkeyCount == 0 then Needs(r).(logSize := 0) else Needs(r))
  }

  lemma {:induction false} LogSizeOfRun(dbs: seq<Rose>)
    requires forall i :: 0 <= i < |dbs| ==> Compiled(dbs[i])
    ensures RaisedAll(dbs).dkeyCount > 0 ==>
              RaisedAll(dbs).logSize == MultibitBuild.FatbitSize(RaisedAll(dbs).dkeyCount)
  {
    hide MultibitBuild.FatbitSize, BlockStateSize;
    if dbs != [] {
      LogSizeOfRun(dbs[..|dbs| - 1]);
    }
  }

  /** Raising for a compiled database covers it, and every compiled database covered before. */
  lemma RaisedCovers(c: Capacities, r: Rose)
    requires Compiled(r) && (c.dkeyCount > 0 ==> c.logSize == MultibitBuild.FatbitSize(c.dkeyCount))
    ensures Covers(Raised(c, r), r)
    ensures forall q :: Compiled(q) && Covers(c, q) ==> Covers(Raised(c, r), q)
  {
    hide MultibitBuild.FatbitSize, BlockStateSize;
    if r.dkeyCount <= c.dkeyCount {
      MultibitBuild.FatbitSizeGrows(r.dkeyCount, c.dkeyCount);
    } else {
      MultibitBuild.FatbitSizeGrows(c.dkeyCount, r.dkeyCount);
    }
    forall q | Compiled(q) && Covers(c, q)
      ensures Covers(Raised(c, r), q)
    {
    }
  }

  /** Growth is monotone: after any run of allocations every capacity suffices for every compiled database of the run. */
  lemma {:induction false} RunCovers(dbs: seq<Rose>, i: nat)
    requires i < |dbs| && forall i :: 0 <= i < |dbs| ==> Compiled(dbs[i])
    ensures Covers(RaisedAll(dbs), dbs[i])
    decreases |dbs|
  {
    hide Compiled, Covers, Raised;
    var init := dbs[..|dbs| - 1];
    LogSizeOfRun(init);
    RaisedCovers(RaisedAll(init), dbs[|dbs| - 1]);
    if i < |dbs| - 1 {
      RunCovers(init, i);
      assert init[i] == dbs[i];
    }
  }

  /** And no more: whatever covers them all is at least as large in every field. */
  lemma {:induction false} RunLeast(dbs: seq<Rose>, c: Capacities)
    requires forall i :: 0 <= i < |dbs| ==> Covers(c, dbs[i])
    ensures AtLeast(c, RaisedAll(dbs))
    decreases |dbs|
  {
    hide BlockStateSize;
    if dbs != [] {
      var init := dbs[..|dbs| - 1];
      assert forall i :: 0 <= i < |init| ==> init[i] == dbs[i];
      RunLeast(init, c);
      assert Covers(c, dbs[|dbs| - 1]);
    }
  }

  /** A database with dedupe keys that is covered stays covered if and only if no database with more keys than
      there is room for brings a log smaller than its own. */
  lemma CoverageKeptIff(c: Capacities, q: Rose, r: Rose)
    requires Covers(c, q) && q.dkeyCount > 0
    ensures Covers(Raised(c, r), q) <==> (r.dkeyCount > c.dkeyCount ==> q.dkeyLogSize <= r.dkeyLogSize)
  {
  }

  /** The first database of a run with the largest key count. */
  ghost predicate FirstWithMostKeys(dbs: seq<Rose>, k: nat) {
    && k < |dbs| && (forall i :: 0 <= i < |dbs| ==> dbs[i].dkeyCount <= dbs[k].dkeyCount)
    && (forall i :: 0 <= i < k ==> dbs[i].dkeyCount < dbs[k].dkeyCount)
  }

  /** A run ends with the log of that database, and with every other capacity large enough. */
  lemma {:induction false} RunEndsWith(dbs: seq<Rose>, k: nat)
    requires FirstWithMostKeys(dbs, k) && dbs[k].dkeyCount > 0
    ensures RaisedAll(dbs).dkeyCount == dbs[k].dkeyCount && RaisedAll(dbs).logSize == dbs[k].dkeyLogSize
    decreases |dbs|
  {
    var last := |dbs| - 1;
    if k < last {
      RunEndsWith(dbs[..last], k);
    } else {
      FewerKeys(dbs[..last], dbs[k].dkeyCount);
    }
  }

  lemma {:induction false} FewerKeys(dbs: seq<Rose>, n: nat)
    requires n > 0 && forall i :: 0 <= i < |dbs| ==> dbs[i].dkeyCount < n
    ensures RaisedAll(dbs).dkeyCount < n
  {
    if dbs != [] {
      FewerKeys(dbs[..|dbs| - 1], n);
    }
  }

  lemma {:induction false} RunRaises(dbs: seq<Rose>, i: nat)
    requires i < |dbs|
    ensures AtLeast(RaisedAll(dbs), Needs(dbs[i]).(logSize := 0))
    decreases |dbs|
  {
    hide BlockStateSize;
    if i < |dbs| - 1 {
      RunRaises(dbs[..|dbs| - 1], i);
    }
  }

  /** After a run every database is covered if and only if none has a larger log than the first one with the most
      keys. */
  lemma RunCoversIff(dbs: seq<Rose>, k: nat)
    requires FirstWithMostKeys(dbs, k) && dbs[k].dkeyCount > 0
    ensures (forall i :: 0 <= i < |dbs| ==> Covers(RaisedAll(dbs), dbs[i])) <==>
            (forall i :: 0 <= i < |dbs| && dbs[i].dkeyCount > 0 ==> dbs[i].dkeyLogSize <= dbs[k].dkeyLogSize)
  {
    hide RaisedAll, BlockStateSize;
    RunEndsWith(dbs, k);
    forall i | 0 <= i < |dbs|
      ensures Covers(RaisedAll(dbs), dbs[i]) <==> dbs[i].dkeyCount == 0 || dbs[i].dkeyLogSize <= dbs[k].dkeyLogSize
    {
      RunRaises(dbs, i);
    }
  }

  /** A run of allocations on one scratch variable, the allocator answering as given. A failure leaves no scratch; every
      scan call accepts the result for every database served since the last failure. */
  method AllocForAll(dbs: seq<Rose>, memory: seq<Memory>) returns (scratch: ScratchRegion?, since: nat)
    requires |memory| == |dbs| && forall i :: 0 <= i < |dbs| ==> Compiled(dbs[i])
    ensures since <= |dbs| && (since == |dbs| <==> scratch == null)
    ensures since > 0 ==> !memory[since - 1].prototype || memory[since - 1].block.None?
    ensures forall i :: since <= i < |dbs| ==> memory[i].prototype
    ensures scratch != null ==> fresh(scratch) && scratch.caps == RaisedAll(dbs[since..])
    ensures forall i :: since <= i < |dbs| ==> Covers(scratch.caps, dbs[i]) && scratch.ValidFor(dbs[i])
  {
    hide Raised, Covers, Compiled;
    scratch, since := null, 0;
    for k := 0 to |dbs|
      invariant since <= k && (since == k <==> scratch == null)
      invariant since > 0 ==> !memory[since - 1].prototype || memory[since - 1].block.None?
      invariant forall i :: since <= i < k ==> memory[i].prototype
      invariant scratch != null ==>
                  && fresh(scratch) && scratch.caps == RaisedAll(dbs[since..k])
                  && scratch.address % 64 == 0 && scratch.magic == SCRATCH_MAGIC
    {
      assert dbs[since..k + 1][..k - since] == dbs[since..k];
      var res := AllocScratch(dbs[k], scratch, memory[k]);
      if res.NoMemory? {
        scratch, since := null, k + 1;
      } else {
        scratch := res.scratch;
      }
    }
    assert dbs[since..|dbs|] == dbs[since..];
    forall i | since <= i < |dbs|
      ensures Covers(scratch.caps, dbs[i]) && scratch.ValidFor(dbs[i])
    {
      assert dbs[since..][i - since] == dbs[i];
      RunCovers(dbs[since..], i - since);
      CoverageIsEnough(scratch.caps, dbs[i]);
    }
  }

  /** Coverage is what scanning with the database asks of scratch, field by field. */
  lemma CoverageIsEnough(c: Capacities, r: Rose)
    ensures Covers(c, r) <==>
            && r.queueCount <= c.queueCount && r.activeQueueArraySize <= c.activeQueueArraySize
            && (r.mode.Block? ==> r.stateEnd <= c.bStateSize) && (r.mode.Vectored? ==> 16 + r.stateEnd <= c.bStateSize)
            && r.anchoredDistance <= c.anchoredRegionLen && r.anchoredFatbitSize <= c.anchoredFatbitSize
            && r.delayFatbitSize <= c.delayFatbitSize && r.handledKeyFatbitSize <= c.handledKeyFatbitSize
            && r.tStateSize <= c.tStateSize && r.scratchStateSize <= c.fullStateSize
            && r.somLocationCount <= c.somStoreCount && r.somLocationFatbitSize <= c.somFatbitSize
            && r.dkeyCount <= c.dkeyCount && (r.dkeyCount > 0 ==> r.dkeyLogSize <= c.logSize)
  {
  }
}
