/** Assigning literals to buckets: the partition that results. */
module BucketAssignment {
  import opened Common
  import opened Literals
  import opened Chunks
  import opened Buckets

  /** Bucket b of the assignment lists literal id. Buckets past the end are empty. */
  predicate Lists(m: seq<seq<nat>>, b: nat, id: nat) {
    b < |m| && id in m[b]
  }

  /** Every literal index below n is listed exactly once, in a bucket below numBuckets. */
  ghost predicate Partition(m: seq<seq<nat>>, n: nat, numBuckets: nat) {
    && |m| <= numBuckets
    && (forall b :: 0 <= b < |m| ==> NoRepeats(m[b]))
    && (forall b: nat, id: nat :: Lists(m, b, id) ==> id < n)
    && (forall id: nat :: id < n ==> IsListed(m, id))
    && (forall b: nat, c: nat, id: nat :: Lists(m, b, id) && Lists(m, c, id) ==> b == c)
  }

  ghost predicate IsListed(m: seq<seq<nat>>, id: nat) {
    exists b: nat :: Lists(m, b, id)
  }

  ghost predicate NoRepeats(ids: seq<nat>) {
    forall x, y :: 0 <= x < y < |ids| ==> ids[x] != ids[y]
  }

  /** Literals of a lower-numbered bucket are at least as long as those of a higher-numbered one. */
  ghost predicate LongestFirst(lits: seq<Literal>, m: seq<seq<nat>>) {
    forall b: nat, c: nat, x: nat, y: nat :: b < c && Lists(m, b, x) && Lists(m, c, y) && x < |lits| && y < |lits| ==>
      |lits[x].s| >= |lits[y].s|
  }

  /** Literals with the string s share a bucket. */
  ghost predicate KeepsTogether(lits: seq<Literal>, m: seq<seq<nat>>, s: seq<Byte>) {
    forall b: nat, x: nat, y: nat :: Lists(m, b, x) && x < |lits| && y < |lits| && lits[x].s == s && lits[y].s == s ==>
      Lists(m, b, y)
  }

  lemma InBucket(chunks: seq<Chunk>, cuts: seq<nat>, buckets: seq<seq<nat>>, q: nat, id: nat)
    requires Placed(chunks, cuts, buckets) && q < |buckets|
    ensures cuts[q] < |chunks| && cuts[q + 1] < |chunks|
    ensures id in buckets[q] <==> chunks[cuts[q]].firstId <= id < chunks[cuts[q + 1]].firstId
  {
    assert IsBucket(chunks, cuts[q], cuts[q + 1], buckets[q]);
    var lo, hi := chunks[cuts[q]].firstId, chunks[cuts[q + 1]].firstId;
    if lo <= id < hi {
      assert buckets[q][hi - id - 1] == id;
    }
  }

  lemma {:induction false} FindBucket(chunks: seq<Chunk>, cuts: seq<nat>, buckets: seq<seq<nat>>, upto: nat, id: nat)
    returns (q: nat)
    requires Placed(chunks, cuts, buckets) && 0 < upto <= |buckets|
    requires cuts[0] < |chunks| && cuts[upto] < |chunks|
    requires chunks[cuts[0]].firstId <= id < chunks[cuts[upto]].firstId
    ensures q < upto && id in buckets[q]
  {
    InBucket(chunks, cuts, buckets, upto - 1, id);
    if chunks[cuts[upto - 1]].firstId <= id {
      q := upto - 1;
    } else {
      q := FindBucket(chunks, cuts, buckets, upto - 1, id);
    }
  }

  lemma DifferentBuckets(chunks: seq<Chunk>, cuts: seq<nat>, buckets: seq<seq<nat>>, q: nat, r: nat, x: nat, y: nat)
    requires Placed(chunks, cuts, buckets) && q < r < |buckets| && x in buckets[q] && y in buckets[r]
    ensures x < y
  {
    InBucket(chunks, cuts, buckets, q, x);
    InBucket(chunks, cuts, buckets, r, y);
    if q + 1 < r {
      CutsIncrease(chunks, cuts, buckets, q + 1, r);
    }
  }

  /** Bucket numbers are reversed so that longer literals come first. */
  function Reversed(buckets: seq<seq<nat>>): (m: seq<seq<nat>>)
    ensures |m| == |buckets| && forall b :: 0 <= b < |m| ==> m[b] == buckets[|buckets| - b - 1]
  {
    seq(|buckets|, b requires 0 <= b < |buckets| => buckets[|buckets| - b - 1])
  }

  lemma InRange(chunks: seq<Chunk>, cuts: seq<nat>, buckets: seq<seq<nat>>, n: nat, q: nat, id: nat)
    requires Covering(chunks, n) && Placed(chunks, cuts, buckets) && q < |buckets| && id in buckets[q]
    ensures id < n
  {
    InBucket(chunks, cuts, buckets, q, id);
    if cuts[q + 1] < |chunks| - 1 {
      FirstIdsIncrease(chunks, n, cuts[q + 1], |chunks| - 1);
    }
  }

  lemma OneBucket(chunks: seq<Chunk>, cuts: seq<nat>, buckets: seq<seq<nat>>, q: nat, r: nat, id: nat)
    requires Placed(chunks, cuts, buckets) && q < |buckets| && r < |buckets| && id in buckets[q] && id in buckets[r]
    ensures q == r
  {
    if q < r {
      DifferentBuckets(chunks, cuts, buckets, q, r, id, id);
    } else if r < q {
      DifferentBuckets(chunks, cuts, buckets, r, q, id, id);
    }
  }

  lemma ReversedPartition(chunks: seq<Chunk>, cuts: seq<nat>, buckets: seq<seq<nat>>, n: nat, numBuckets: nat)
    requires Covering(chunks, n) && Placed(chunks, cuts, buckets) && 0 < |buckets| <= numBuckets
    requires cuts[0] == 0 && cuts[|buckets|] == |chunks| - 1
    ensures Partition(Reversed(buckets), n, numBuckets)
  {
    hide Covering;
    var m, last := Reversed(buckets), |buckets| - 1;
    forall b: nat, id: nat | Lists(m, b, id) ensures id < n {
      InRange(chunks, cuts, buckets, n, last - b, id);
    }
    forall id: nat | id < n ensures IsListed(m, id) {
      assert chunks[cuts[0]].firstId <= id < chunks[cuts[|buckets|]].firstId by { CoveringEnds(chunks, n); }
      var q := FindBucket(chunks, cuts, buckets, |buckets|, id);
      assert Lists(m, last - q, id);
    }
    forall b: nat, c: nat, id: nat | Lists(m, b, id) && Lists(m, c, id) ensures b == c {
      OneBucket(chunks, cuts, buckets, last - b, last - c, id);
    }
    forall b | 0 <= b < |m| ensures NoRepeats(m[b]) {
      assert IsBucket(chunks, cuts[last - b], cuts[last - b + 1], buckets[last - b]);
    }
  }

  lemma CoveringEnds(chunks: seq<Chunk>, n: nat)
    requires Covering(chunks, n)
    ensures |chunks| >= 2 && chunks[0].firstId == 0 && chunks[|chunks| - 1].firstId == n
  {
  }

  lemma ReversedLongestFirst(lits: seq<Literal>, chunks: seq<Chunk>, cuts: seq<nat>, buckets: seq<seq<nat>>)
    requires Sorted(lits) && Placed(chunks, cuts, buckets)
    ensures LongestFirst(lits, Reversed(buckets))
  {
    hide Sorted, Placed;
    var m, last := Reversed(buckets), |buckets| - 1;
    forall b: nat, c: nat, x: nat, y: nat | b < c && Lists(m, b, x) && Lists(m, c, y) && x < |lits| && y < |lits|
      ensures |lits[x].s| >= |lits[y].s|
    {
      DifferentBuckets(chunks, cuts, buckets, last - c, last - b, y, x);
      SortedByLength(lits, y, x);
    }
  }

  lemma StaysInBucket(lits: seq<Literal>, chunks: seq<Chunk>, cuts: seq<nat>, buckets: seq<seq<nat>>,
                      q: nat, x: nat, y: nat)
    requires Sorted(lits) && Covering(chunks, |lits|) && WellStarted(lits, chunks) && Placed(chunks, cuts, buckets)
    requires q < |buckets| && x in buckets[q] && x < |lits| && y < |lits|
    requires lits[x].s == lits[y].s
    ensures y in buckets[q]
  {
    hide Sorted, WellStarted;
    InBucket(chunks, cuts, buckets, q, x);
    InBucket(chunks, cuts, buckets, q, y);
    assert IsBucket(chunks, cuts[q], cuts[q + 1], buckets[q]);
    if x < y && cuts[q + 1] < |chunks| - 1 {
      NoChunkBetweenSameStrings(lits, chunks, x, y, cuts[q + 1]);
    } else if y < x {
      NoChunkBetweenSameStrings(lits, chunks, y, x, cuts[q]);
    }
  }

  lemma ReversedKeepsTogether(lits: seq<Literal>, chunks: seq<Chunk>, cuts: seq<nat>, buckets: seq<seq<nat>>, s: seq<Byte>)
    requires Sorted(lits) && Covering(chunks, |lits|) && WellStarted(lits, chunks) && Placed(chunks, cuts, buckets)
    ensures KeepsTogether(lits, Reversed(buckets), s)
  {
    var m := Reversed(buckets);
    forall b: nat, x: nat, y: nat | Lists(m, b, x) && x < |lits| && y < |lits| && lits[x].s == s && lits[y].s == s
      ensures Lists(m, b, y)
    {
      StaysInBucket(lits, chunks, cuts, buckets, |buckets| - b - 1, x, y);
    }
  }

  /** The different lengths of the literals. */
  function Lengths(lits: seq<Literal>): set<nat> {
    set i | 0 <= i < |lits| :: |lits[i].s|
  }

  /** Sorting, chunking, optimising and placing. */
  method AssignStringsToBuckets(f: Scorer, litsIn: seq<Literal>, numBuckets: nat)
    returns (lits: seq<Literal>, bucketToLits: seq<seq<nat>>, ghost rows: seq<Chunk>, ghost cuts: seq<nat>)
    requires Monotone(f) && numBuckets >= 1
    requires litsIn != [] && forall i :: 0 <= i < |litsIn| ==> litsIn[i].s != []
    ensures multiset(lits) == multiset(litsIn) && Sorted(lits)
    ensures Partition(bucketToLits, |lits|, numBuckets)
    ensures LongestFirst(lits, bucketToLits)
    ensures forall s :: KeepsTogether(lits, bucketToLits, s)
    ensures Covering(rows, |lits|) && WellStarted(lits, rows) && |rows| <= 512
    ensures CutExactly(lits, rows, |lits| / (512 - Min(16, |(set lit | lit in lits :: |lit.s|)|)) + 1)
    ensures Placed(rows, cuts, Reversed(bucketToLits))
    ensures |rows| - 1 >= numBuckets ==>
              |bucketToLits| == numBuckets && LeastSum(f, rows, |lits|, numBuckets, cuts)
    ensures |rows| - 1 < numBuckets ==> |bucketToLits| == 1
  {
    hide Optimal, Sorted, KeepsTogether, LongestFirst, Partition, CutExactly, LeastSum;
    lits := StableSort(litsIn);
    SameMembers(lits, litsIn);
    assert Lengths(lits) == set lit | lit in lits :: |lit.s|;
    var chunks := AssignChunks(lits, |Lengths(lits)|);
    var t := FillTable(f, chunks, |lits|, numBuckets);
    var buckets, cs := FollowLinks(f, chunks, |lits|, t, numBuckets);
    rows, cuts := chunks, cs;
    bucketToLits := Reversed(buckets);
    assert Reversed(bucketToLits) == buckets;
    if |rows| - 1 >= numBuckets {
      ChunkLengths(lits, rows);
      OptimalIsLeast(f, rows, |lits|, numBuckets, cuts);
    }
    ReversedPartition(chunks, cuts, buckets, |lits|, numBuckets);
    ReversedLongestFirst(lits, chunks, cuts, buckets);
    forall s ensures KeepsTogether(lits, bucketToLits, s) {
      ReversedKeepsTogether(lits, chunks, cuts, buckets, s);
    }
  }

  lemma ChunkLengths(lits: seq<Literal>, chunks: seq<Chunk>)
    requires WellStarted(lits, chunks) && forall i :: 0 <= i < |lits| ==> lits[i].s != []
    ensures forall j :: 0 <= j < |chunks| - 1 ==> chunks[j].length > 0
  {
    hide NotEquivAt;
  }

  lemma SameMembers(a: seq<Literal>, b: seq<Literal>)
    requires multiset(a) == multiset(b)
    ensures |a| == |b|
    ensures (forall i :: 0 <= i < |b| ==> b[i].s != []) ==> forall i :: 0 <= i < |a| ==> a[i].s != []
  {
    assert |multiset(a)| == |a| && |multiset(b)| == |b|;
    forall i | 0 <= i < |a| ensures a[i] in b {
      assert a[i] in multiset(a);
    }
  }
}
