/** Cutting the sorted literals into contiguous chunks. */
module Chunks {
  import opened Common
  import opened Literals

  const CHUNK_MAX: nat := 512
  const MAX_CONSIDERED_LENGTH: nat := 16

  datatype Chunk = Chunk(firstId: nat, count: nat, length: nat)

  /** Contiguous non-empty chunks that cover `n` literals, closed by an empty row. */
  ghost predicate Covering(chunks: seq<Chunk>, n: nat) {
    && |chunks| >= 2
    && chunks[0].firstId == 0
    && chunks[|chunks| - 1] == Chunk(n, 0, 0)
    && (forall j :: 0 <= j < |chunks| - 1 ==>
          chunks[j].count > 0 && chunks[j].length > 0 && chunks[j].firstId + chunks[j].count == chunks[j + 1].firstId)
  }

  lemma {:induction false} FirstIdsIncrease(chunks: seq<Chunk>, n: nat, a: nat, b: nat)
    requires Covering(chunks, n) && a < b < |chunks|
    ensures chunks[a].firstId < chunks[b].firstId <= n
    decreases |chunks| - a
  {
    assert chunks[a].firstId + chunks[a].count == chunks[a + 1].firstId;
    if a + 1 < b {
      FirstIdsIncrease(chunks, n, a + 1, b);
    } else if b < |chunks| - 1 {
      FirstIdsIncrease(chunks, n, b, |chunks| - 1);
    }
  }

  /** The last caseless literal among the first `i`. */
  function LastNocase(lits: seq<Literal>, i: nat): Option<Literal>
    requires i <= |lits|
  {
    if i == 0 then None else if lits[i - 1].nocase then Some(lits[i - 1]) else LastNocase(lits, i - 1)
  }

  /** Chunks under construction: all but the last are closed, the last is still open. */
  ghost predicate Open(lits: seq<Literal>, chunks: seq<Chunk>, i: nat) {
    && |chunks| > 0
    && chunks[0].firstId == 0
    && chunks[|chunks| - 1].firstId < i <= |lits|
    && (forall j :: 0 <= j < |chunks| ==> chunks[j].firstId < |lits| && chunks[j].length == |lits[chunks[j].firstId].s|)
    && (forall j :: 0 <= j < |chunks| - 1 ==>
          chunks[j].count > 0 && chunks[j].firstId + chunks[j].count == chunks[j + 1].firstId)
    && (forall j :: 1 <= j < |chunks| ==> NotEquivAt(lits, chunks[j].firstId))
  }

  ghost predicate NotEquivAt(lits: seq<Literal>, i: nat) {
    0 < i < |lits| && !IsEquivLit(lits[i], lits[i - 1], LastNocase(lits, i))
  }

  /** Every chunk starts with a literal of the chunk's length that is not equivalent to its predecessor. */
  ghost predicate WellStarted(lits: seq<Literal>, chunks: seq<Chunk>) {
    forall j :: 0 <= j < |chunks| - 1 ==>
      && chunks[j].firstId < |lits| && chunks[j].length == |lits[chunks[j].firstId].s|
      && (j > 0 ==> NotEquivAt(lits, chunks[j].firstId))
  }

  /** How many literals a chunk may hold before it is cut. */
  function MaxPerChunk(n: nat, distinctLengths: nat): nat {
    n / (CHUNK_MAX - Min(MAX_CONSIDERED_LENGTH, distinctLengths)) + 1
  }

  lemma MaxPerChunkIs(n: nat, distinctLengths: nat)
    ensures MaxPerChunk(n, distinctLengths) == n / (512 - Min(16, distinctLengths)) + 1
  {
  }

  /** Literal i starts a new chunk, if the current one started at `start` with literals of the given length. */
  ghost predicate Breaks(lits: seq<Literal>, start: nat, length: nat, most: nat, i: nat) {
    && NotEquivAt(lits, i)
    && ((length < 16 && |lits[i].s| != length) || (length != 1 && i - start >= most))
  }

  /** No literal strictly between the start of a chunk and `end` starts a new one. */
  ghost predicate Unbroken(lits: seq<Literal>, c: Chunk, end: nat, most: nat) {
    forall i: nat :: c.firstId < i < end ==> !Breaks(lits, c.firstId, c.length, most, i)
  }

  /** A chunk that may take in anything: the last one, when there are as many chunks as can be. */
  predicate Overflow(chunks: seq<Chunk>, j: nat) { |chunks| == 512 && j == 510 }

  /** Chunks start exactly where the literals say, until there are as many as can be. */
  ghost predicate CutExactly(lits: seq<Literal>, chunks: seq<Chunk>, most: nat) {
    forall j :: 0 <= j < |chunks| - 1 ==>
      && (j > 0 ==> Breaks(lits, chunks[j - 1].firstId, chunks[j - 1].length, most, chunks[j].firstId))
      && (!Overflow(chunks, j) ==> Unbroken(lits, chunks[j], chunks[j].firstId + chunks[j].count, most))
  }

  /** While chunks are built: closed ones are exact, the open one has not been broken so far. */
  ghost predicate OpenExactly(lits: seq<Literal>, chunks: seq<Chunk>, most: nat, i: nat) {
    && (forall j :: 0 < j < |chunks| ==>
          Breaks(lits, chunks[j - 1].firstId, chunks[j - 1].length, most, chunks[j].firstId))
    && (forall j :: 0 <= j < |chunks| - 1 ==> Unbroken(lits, chunks[j], chunks[j + 1].firstId, most))
    && (|chunks| > 0 ==> Unbroken(lits, chunks[|chunks| - 1], i, most))
  }

  /** Give the last chunk its count. */
  function CloseLast(chunks: seq<Chunk>, end: nat): seq<Chunk>
    requires chunks != [] && chunks[|chunks| - 1].firstId <= end
  {
    var n := |chunks| - 1;
    chunks[n := Chunk(chunks[n].firstId, end - chunks[n].firstId, chunks[n].length)]
  }

  lemma StartChunk(lits: seq<Literal>, chunks: seq<Chunk>, i: nat)
    requires Open(lits, chunks, i) && NotEquivAt(lits, i)
    ensures Open(lits, CloseLast(chunks, i) + [Chunk(i, 0, |lits[i].s|)], i + 1)
  {
    hide NotEquivAt;
    assert i < |lits| by { assert NotEquivAt(lits, i); NotEquivAtBound(lits, i); }
    var cs := CloseLast(chunks, i) + [Chunk(i, 0, |lits[i].s|)];
    forall j | 1 <= j < |cs| ensures NotEquivAt(lits, cs[j].firstId) {
      assert j < |chunks| ==> cs[j].firstId == chunks[j].firstId;
    }
  }

  lemma NotEquivAtBound(lits: seq<Literal>, i: nat)
    requires NotEquivAt(lits, i)
    ensures 0 < i < |lits|
  {
  }

  lemma FinishChunks(lits: seq<Literal>, chunks: seq<Chunk>, i: nat)
    requires Open(lits, chunks, i) && forall i :: 0 <= i < |lits| ==> lits[i].s != []
    ensures Covering(CloseLast(chunks, |lits|) + [Chunk(|lits|, 0, 0)], |lits|)
    ensures WellStarted(lits, CloseLast(chunks, |lits|) + [Chunk(|lits|, 0, 0)])
  {
    hide NotEquivAt;
    var cs := CloseLast(chunks, |lits|) + [Chunk(|lits|, 0, 0)];
    forall j | 0 <= j < |chunks|
      ensures cs[j].firstId == chunks[j].firstId && cs[j].length == chunks[j].length
      ensures cs[j].length > 0
    {
    }
  }

  lemma ExtendOpen(lits: seq<Literal>, chunks: seq<Chunk>, most: nat, i: nat)
    requires OpenExactly(lits, chunks, most, i) && |chunks| > 0
    requires !Breaks(lits, chunks[|chunks| - 1].firstId, chunks[|chunks| - 1].length, most, i)
    ensures OpenExactly(lits, chunks, most, i + 1)
  {
    hide Breaks;
  }

  lemma StartExactly(lits: seq<Literal>, chunks: seq<Chunk>, most: nat, i: nat, length: nat)
    requires OpenExactly(lits, chunks, most, i)
    requires chunks != [] ==>
               && chunks[|chunks| - 1].firstId <= i
               && Breaks(lits, chunks[|chunks| - 1].firstId, chunks[|chunks| - 1].length, most, i)
    ensures OpenExactly(lits, (if chunks == [] then [] else CloseLast(chunks, i)) + [Chunk(i, 0, length)], most, i + 1)
  {
    hide Breaks;
    var cs := (if chunks == [] then [] else CloseLast(chunks, i)) + [Chunk(i, 0, length)];
    forall j | 0 <= j < |chunks|
      ensures cs[j].firstId == chunks[j].firstId && cs[j].length == chunks[j].length
      ensures Unbroken(lits, cs[j], cs[j + 1].firstId, most)
    {
      assert j < |chunks| - 1 ==> Unbroken(lits, chunks[j], chunks[j + 1].firstId, most);
    }
  }

  lemma FinishExactly(lits: seq<Literal>, chunks: seq<Chunk>, most: nat, i: nat)
    requires Open(lits, chunks, i) && OpenExactly(lits, chunks, most, i) && |chunks| < CHUNK_MAX
    requires |chunks| == CHUNK_MAX - 1 || i == |lits|
    ensures CutExactly(lits, CloseLast(chunks, |lits|) + [Chunk(|lits|, 0, 0)], most)
  {
    hide Breaks, NotEquivAt;
    var cs := CloseLast(chunks, |lits|) + [Chunk(|lits|, 0, 0)];
    forall j | 0 <= j < |cs| - 1
      ensures j > 0 ==> Breaks(lits, cs[j - 1].firstId, cs[j - 1].length, most, cs[j].firstId)
      ensures !Overflow(cs, j) ==> Unbroken(lits, cs[j], cs[j].firstId + cs[j].count, most)
    {
      assert cs[j].firstId == chunks[j].firstId && cs[j].length == chunks[j].length;
      if j < |chunks| - 1 {
        assert Unbroken(lits, chunks[j], chunks[j + 1].firstId, most);
        assert cs[j] == chunks[j];
      }
    }
  }

  /** The chunks for the first i literals, the last one still open. */
  ghost predicate Building(lits: seq<Literal>, chunks: seq<Chunk>, most: nat, i: nat) {
    && i <= |lits| && OpenExactly(lits, chunks, most, i)
    && if i == 0 then chunks == [] else Open(lits, chunks, i)
  }

  /** Close the open chunk, if there is one, and open another. */
  function Started(chunks: seq<Chunk>, i: nat, length: nat): seq<Chunk>
    requires chunks != [] ==> chunks[|chunks| - 1].firstId <= i
  {
    (if chunks == [] then [] else CloseLast(chunks, i)) + [Chunk(i, 0, length)]
  }

  lemma BuildingLast(lits: seq<Literal>, chunks: seq<Chunk>, most: nat, i: nat)
    requires Building(lits, chunks, most, i)
    ensures chunks == [] <==> i == 0
    ensures i > 0 ==> chunks[|chunks| - 1].firstId < i
  {
    hide OpenExactly, NotEquivAt;
  }

  lemma ExtendBuilding(lits: seq<Literal>, chunks: seq<Chunk>, most: nat, i: nat)
    requires Building(lits, chunks, most, i) && i < |lits| && chunks != []
    requires !Breaks(lits, chunks[|chunks| - 1].firstId, chunks[|chunks| - 1].length, most, i)
    ensures Building(lits, chunks, most, i + 1)
  {
    hide Breaks, OpenExactly, NotEquivAt;
    ExtendOpen(lits, chunks, most, i);
  }

  lemma StartBuilding(lits: seq<Literal>, chunks: seq<Chunk>, most: nat, i: nat)
    requires Building(lits, chunks, most, i) && i < |lits|
    requires chunks != [] ==>
               && chunks[|chunks| - 1].firstId <= i
               && Breaks(lits, chunks[|chunks| - 1].firstId, chunks[|chunks| - 1].length, most, i)
    ensures Building(lits, Started(chunks, i, |lits[i].s|), most, i + 1)
  {
    StartExactly(lits, chunks, most, i, |lits[i].s|);
    hide OpenExactly;
    if chunks != [] {
      StartChunk(lits, chunks, i);
    }
  }

  lemma FinishBuilding(lits: seq<Literal>, chunks: seq<Chunk>, most: nat, i: nat)
    requires Building(lits, chunks, most, i) && 0 < i && |chunks| < CHUNK_MAX
    requires forall i :: 0 <= i < |lits| ==> lits[i].s != []
    requires |chunks| == CHUNK_MAX - 1 || i == |lits|
    ensures |chunks| > 0 && chunks[|chunks| - 1].firstId <= |lits|
    ensures var cs := CloseLast(chunks, |lits|) + [Chunk(|lits|, 0, 0)];
            Covering(cs, |lits|) && WellStarted(lits, cs) && CutExactly(lits, cs, most)
  {
    hide Covering, WellStarted, CutExactly, OpenExactly, NotEquivAt;
    FinishChunks(lits, chunks, i);
    FinishExactly(lits, chunks, most, i);
  }

  /** `distinctLengths` is the number of different literal lengths. */
  method AssignChunks(lits: seq<Literal>, distinctLengths: nat) returns (chunks: seq<Chunk>)
    requires lits != [] && forall i :: 0 <= i < |lits| ==> lits[i].s != []
    ensures Covering(chunks, |lits|) && WellStarted(lits, chunks)
    ensures CutExactly(lits, chunks, |lits| / (512 - Min(16, distinctLengths)) + 1)
    ensures |chunks| <= 512
  {
    hide IsEquivLit, Building, CutExactly, Covering, WellStarted, OpenExactly, MaxPerChunk;
    var maxPerChunk := MaxPerChunk(|lits|, distinctLengths);
    MaxPerChunkIs(|lits|, distinctLengths);
    chunks := [];
    NoneBuilt(lits, maxPerChunk);
    var currentSize: nat, chunkStart: nat := 0, 0;
    var last: Option<Literal> := None;
    var i: nat := 0;
    while i < |lits| && |chunks| < CHUNK_MAX - 1
      invariant 0 <= i <= |lits| && |chunks| <= CHUNK_MAX - 1
      invariant Building(lits, chunks, maxPerChunk, i)
      invariant i == 0 ==> chunks == [] && currentSize == 0
      invariant i > 0 ==> chunks != [] && chunks[|chunks| - 1] == Chunk(chunkStart, 0, currentSize)
      invariant last == LastNocase(lits, i)
      decreases |lits| - i
    {
      BuildingLast(lits, chunks, maxPerChunk, i);
      var lit := lits[i];
      if i != 0 && IsEquivLit(lit, lits[i - 1], last) {
        // identical apart from case: stays in the chunk even if it overfills it
        ExtendBuilding(lits, chunks, maxPerChunk, i);
      } else if (currentSize < MAX_CONSIDERED_LENGTH && |lit.s| != currentSize)
             || (currentSize != 1 && i - chunkStart >= maxPerChunk) {
        StartBuilding(lits, chunks, maxPerChunk, i);
        currentSize := |lit.s|;
        if chunks != [] {
          chunks := CloseLast(chunks, i);
        }
        chunkStart := i;
        chunks := chunks + [Chunk(i, 0, currentSize)];
      } else {
        ExtendBuilding(lits, chunks, maxPerChunk, i);
      }
      if lit.nocase {
        last := Some(lit);
      }
      i := i + 1;
    }
    FinishBuilding(lits, chunks, maxPerChunk, i);
    chunks := CloseLast(chunks, |lits|) + [Chunk(|lits|, 0, 0)];
  }

  lemma NoneBuilt(lits: seq<Literal>, most: nat)
    ensures Building(lits, [], most, 0)
  {
  }

  /** Short literals share a chunk only with literals of their own length. */
  lemma {:induction false} ChunkOfOneLength(lits: seq<Literal>, chunks: seq<Chunk>, most: nat, j: nat, i: nat)
    requires Covering(chunks, |lits|) && WellStarted(lits, chunks) && CutExactly(lits, chunks, most)
    requires j < |chunks| - 1 && !Overflow(chunks, j) && chunks[j].length < 16
    requires chunks[j].firstId <= i < chunks[j].firstId + chunks[j].count
    ensures i < |lits| && |lits[i].s| == chunks[j].length
    decreases i
  {
    FirstIdsIncrease(chunks, |lits|, j, |chunks| - 1);
    if j + 1 < |chunks| - 1 {
      FirstIdsIncrease(chunks, |lits|, j + 1, |chunks| - 1);
    }
    if i > chunks[j].firstId {
      ChunkOfOneLength(lits, chunks, most, j, i - 1);
      assert !Breaks(lits, chunks[j].firstId, chunks[j].length, most, i);
    }
  }

  /** Beyond the allowed number, a chunk of literals longer than one byte takes in only equivalents of what it holds. */
  lemma OverfullByEquivalents(lits: seq<Literal>, chunks: seq<Chunk>, most: nat, j: nat, i: nat)
    requires Covering(chunks, |lits|) && CutExactly(lits, chunks, most)
    requires j < |chunks| - 1 && !Overflow(chunks, j) && chunks[j].length != 1
    requires chunks[j].firstId + most <= i < chunks[j].firstId + chunks[j].count && most > 0
    ensures 0 < i < |lits| && IsEquivLit(lits[i], lits[i - 1], LastNocase(lits, i))
  {
    FirstIdsIncrease(chunks, |lits|, j, |chunks| - 1);
    if j + 1 < |chunks| - 1 {
      FirstIdsIncrease(chunks, |lits|, j + 1, |chunks| - 1);
    }
    assert !Breaks(lits, chunks[j].firstId, chunks[j].length, most, i);
  }

  /** The literals alone decide the chunks. */
  lemma {:induction false} SameStarts(lits: seq<Literal>, a: seq<Chunk>, b: seq<Chunk>, most: nat, j: nat)
    requires Covering(a, |lits|) && WellStarted(lits, a) && CutExactly(lits, a, most) && |a| <= 512
    requires Covering(b, |lits|) && WellStarted(lits, b) && CutExactly(lits, b, most) && |b| <= 512
    requires j < |a|
    ensures j < |b| && a[j].firstId == b[j].firstId && (j == |a| - 1 <==> j == |b| - 1)
    decreases j
  {
    hide Breaks;
    if j > 0 {
      SameStarts(lits, a, b, most, j - 1);
      NextStartNoLater(lits, a, b, most, j);
      NextStartNoLater(lits, b, a, most, j);
      if j < |a| - 1 {
        FirstIdsIncrease(a, |lits|, j, |a| - 1);
      }
      if j < |b| - 1 {
        FirstIdsIncrease(b, |lits|, j, |b| - 1);
      }
    }
  }

  lemma NextStartNoLater(lits: seq<Literal>, a: seq<Chunk>, b: seq<Chunk>, most: nat, j: nat)
    requires Covering(a, |lits|) && WellStarted(lits, a) && CutExactly(lits, a, most) && |a| <= 512
    requires Covering(b, |lits|) && WellStarted(lits, b) && CutExactly(lits, b, most) && |b| <= 512
    requires 0 < j < |a| && j < |b| && a[j - 1].firstId == b[j - 1].firstId
    ensures a[j].firstId >= b[j].firstId
  {
    hide Breaks;
    if j < |b| - 1 {
      FirstIdsIncrease(b, |lits|, j, |b| - 1);
    }
    FirstIdsIncrease(a, |lits|, j - 1, j);
    assert j < |a| - 1 ==> Breaks(lits, a[j - 1].firstId, a[j - 1].length, most, a[j].firstId);
    assert !Overflow(b, j - 1) ==> Unbroken(lits, b[j - 1], b[j].firstId, most);
  }

  lemma ChunksUnique(lits: seq<Literal>, a: seq<Chunk>, b: seq<Chunk>, most: nat)
    requires Covering(a, |lits|) && WellStarted(lits, a) && CutExactly(lits, a, most) && |a| <= 512
    requires Covering(b, |lits|) && WellStarted(lits, b) && CutExactly(lits, b, most) && |b| <= 512
    ensures a == b
  {
    hide CutExactly;
    SameStarts(lits, a, b, most, |a| - 1);
    forall j | 0 <= j < |a| - 1
      ensures a[j] == b[j]
    {
      SameStarts(lits, a, b, most, j);
      SameStarts(lits, a, b, most, j + 1);
    }
  }

  /** No chunk starts between two literals with the same string. */
  lemma NoChunkBetweenSameStrings(lits: seq<Literal>, chunks: seq<Chunk>, a: nat, b: nat, j: nat)
    requires Sorted(lits) && Covering(chunks, |lits|) && WellStarted(lits, chunks)
    requires a < b < |lits| && lits[a].s == lits[b].s && j < |chunks| - 1
    ensures !(a < chunks[j].firstId <= b)
  {
    var i := chunks[j].firstId;
    if a < i <= b {
      assert NotEquivAt(lits, i);
      SameStringContiguous(lits, a, i, b);
      SameStringContiguous(lits, a, i - 1, b);
      EquivOfSameString(lits[i], lits[i - 1], LastNocase(lits, i));
    }
  }

  /** From literal a to literal b there are only case variants of one string. */
  ghost predicate CaseVariants(lits: seq<Literal>, a: nat, b: nat) {
    a <= b < |lits| && forall i :: a <= i <= b ==> Upper(lits[i].s) == Upper(lits[a].s)
  }

  lemma {:induction false} LastNocaseFrom(lits: seq<Literal>, a: nat, i: nat)
    requires a < i <= |lits| && lits[a].nocase && CaseVariants(lits, a, i - 1)
    ensures LastNocase(lits, i).Some? && Upper(LastNocase(lits, i).value.s) == Upper(lits[a].s)
    decreases i
  {
    if a < i - 1 && !lits[i - 1].nocase {
      LastNocaseFrom(lits, a, i - 1);
    }
  }

  /** No chunk starts within the case variants that stand behind a caseless literal. */
  lemma NoChunkWithinCaseVariants(lits: seq<Literal>, chunks: seq<Chunk>, a: nat, b: nat, j: nat)
    requires Covering(chunks, |lits|) && WellStarted(lits, chunks)
    requires CaseVariants(lits, a, b) && lits[a].nocase && j < |chunks| - 1
    ensures !(a < chunks[j].firstId <= b)
  {
    var i := chunks[j].firstId;
    if a < i <= b {
      assert NotEquivAt(lits, i);
      LastNocaseFrom(lits, a, i);
      EquivBesidesCase(lits[i], lits[i - 1], LastNocase(lits, i));
    }
  }
}
