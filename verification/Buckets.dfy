/** Choosing buckets for chunks by dynamic programming, and what the choice is worth. */
module Buckets {
  import opened Common
  import opened Literals
  import opened Chunks

  /** A score; `Top` stands for the largest double, which marks impossible splits. */
  datatype Cost = Finite(c: real) | Top

  predicate Less(a: Cost, b: Cost) {
    a.Finite? && (b.Top? || a.c < b.c)
  }

  function Plus(a: Cost, b: Cost): Cost {
    if a.Finite? && b.Finite? then Finite(a.c + b.c) else Top
  }

  /** Score of a bucket of `count` literals, the shortest being `len` long. */
  type Scorer = (nat, nat) -> real

  ghost predicate Monotone(f: Scorer) {
    && (forall len, count :: f(len, count) >= 0.0)
    && (forall len, c, d :: c <= d ==> f(len, c) <= f(len, d))
  }

  function Score(f: Scorer, len: nat, count: nat): Cost {
    if len == 0 then Top else Finite(f(len, count))
  }

  /** Chunks a..b in one bucket. */
  function GroupCost(f: Scorer, chunks: seq<Chunk>, a: nat, b: nat): Cost
    requires a < b < |chunks| && chunks[a].firstId <= chunks[b].firstId
  {
    Score(f, chunks[a].length, chunks[b].firstId - chunks[a].firstId)
  }

  /** Cut points of a split of chunks j.. into exactly `groups` consecutive non-empty groups. */
  ghost predicate IsSplit(chunks: seq<Chunk>, j: nat, groups: nat, cuts: seq<nat>) {
    && groups >= 1 && |cuts| == groups + 1
    && cuts[0] == j && cuts[groups] == |chunks| - 1
    && (forall a, b :: 0 <= a < b <= groups ==> cuts[a] < cuts[b])
  }

  ghost function SplitCost(f: Scorer, chunks: seq<Chunk>, n: nat, cuts: seq<nat>): Cost
    requires Covering(chunks, n)
    requires |cuts| >= 2 && IsSplit(chunks, cuts[0], |cuts| - 1, cuts)
  {
    FirstIdsIncrease(chunks, n, cuts[0], cuts[1]);
    var head := GroupCost(f, chunks, cuts[0], cuts[1]);
    if |cuts| == 2 then head else Plus(head, SplitCost(f, chunks, n, cuts[1..]))
  }

  /** `c` is the least cost of splitting chunks j.. into `groups` groups, Top if there is no split. */
  ghost predicate Optimal(f: Scorer, chunks: seq<Chunk>, n: nat, j: nat, groups: nat, c: Cost)
    requires Covering(chunks, n)
  {
    && (forall cuts :: IsSplit(chunks, j, groups, cuts) ==> !Less(SplitCost(f, chunks, n, cuts), c))
    && (c.Finite? ==> exists cuts :: IsSplit(chunks, j, groups, cuts) && SplitCost(f, chunks, n, cuts) == c)
    && (c.Top? <==> |chunks| - 1 - j < groups)
  }

  /** The cost of a split in plain numbers: the sum over its groups of the score of the length of the group's first
      chunk and of the number of its literals. */
  ghost function GroupSum(f: Scorer, chunks: seq<Chunk>, n: nat, cuts: seq<nat>): real
    requires Covering(chunks, n)
    requires |cuts| >= 2 && IsSplit(chunks, cuts[0], |cuts| - 1, cuts)
  {
    FirstIdsIncrease(chunks, n, cuts[0], cuts[1]);
    f(chunks[cuts[0]].length, chunks[cuts[1]].firstId - chunks[cuts[0]].firstId) +
    if |cuts| == 2 then 0.0 else GroupSum(f, chunks, n, cuts[1..])
  }

  lemma {:induction false} SplitCostIsSum(f: Scorer, chunks: seq<Chunk>, n: nat, cuts: seq<nat>)
    requires Covering(chunks, n) && |cuts| >= 2 && IsSplit(chunks, cuts[0], |cuts| - 1, cuts)
    requires forall j :: 0 <= j < |chunks| - 1 ==> chunks[j].length > 0
    ensures SplitCost(f, chunks, n, cuts) == Finite(GroupSum(f, chunks, n, cuts))
    decreases |cuts|
  {
    if |cuts| > 2 {
      SplitTail(chunks, cuts[0], |cuts| - 2, cuts);
      SplitCostIsSum(f, chunks, n, cuts[1..]);
    }
  }

  /** No split into as many groups has a smaller sum. */
  ghost predicate LeastSum(f: Scorer, chunks: seq<Chunk>, n: nat, groups: nat, cuts: seq<nat>)
    requires Covering(chunks, n)
  {
    && groups >= 1 && IsSplit(chunks, 0, groups, cuts)
    && forall other :: IsSplit(chunks, 0, groups, other) ==> GroupSum(f, chunks, n, cuts) <= GroupSum(f, chunks, n, other)
  }

  lemma OptimalIsLeast(f: Scorer, chunks: seq<Chunk>, n: nat, groups: nat, cuts: seq<nat>)
    requires Covering(chunks, n) && groups >= 1 && IsSplit(chunks, 0, groups, cuts)
    requires Optimal(f, chunks, n, 0, groups, SplitCost(f, chunks, n, cuts))
    requires forall j :: 0 <= j < |chunks| - 1 ==> chunks[j].length > 0
    ensures LeastSum(f, chunks, n, groups, cuts)
  {
    hide SplitCost, GroupSum, Covering;
    SplitCostIsSum(f, chunks, n, cuts);
    forall other | IsSplit(chunks, 0, groups, other)
      ensures GroupSum(f, chunks, n, cuts) <= GroupSum(f, chunks, n, other)
    {
      SplitCostIsSum(f, chunks, n, other);
    }
  }

  ghost predicate NonNegative(c: Cost) {
    c.Finite? ==> c.c >= 0.0
  }

  /** One group: everything that is left. */
  lemma OneGroupOptimal(f: Scorer, chunks: seq<Chunk>, n: nat, j: nat)
    requires Covering(chunks, n) && j < |chunks| - 1
    ensures chunks[j].firstId <= n && Optimal(f, chunks, n, j, 1, GroupCost(f, chunks, j, |chunks| - 1))
  {
    FirstIdsIncrease(chunks, n, j, |chunks| - 1);
    var cuts := [j, |chunks| - 1];
    assert IsSplit(chunks, j, 1, cuts);
    assert forall cs :: IsSplit(chunks, j, 1, cs) ==> cs == cuts;
  }

  datatype Entry = Entry(score: Cost, link: nat)

  /** First group j..k, then the best split of k.. as recorded in `prev`. */
  ghost function Candidate(f: Scorer, chunks: seq<Chunk>, n: nat, prev: seq<Cost>, j: nat, k: nat): Cost
    requires Covering(chunks, n) && |prev| == |chunks| - 1 && j < k < |chunks| - 1
  {
    FirstIdsIncrease(chunks, n, j, k);
    Plus(GroupCost(f, chunks, j, k), prev[k])
  }

  /** `best` is the least candidate, with the chunk where its second group starts. */
  ghost predicate BestOver(f: Scorer, chunks: seq<Chunk>, n: nat, prev: seq<Cost>, j: nat, end: nat, best: Entry)
    requires Covering(chunks, n) && |prev| == |chunks| - 1 && end <= |chunks| - 1
  {
    && (forall k :: j < k < end ==> !Less(Candidate(f, chunks, n, prev, j, k), best.score))
    && (best.score.Finite? ==> j < best.link < end && best.score == Candidate(f, chunks, n, prev, j, best.link))
    && (best.score.Top? ==> best.link == 0)
  }

  lemma SplitTail(chunks: seq<Chunk>, j: nat, groups: nat, cuts: seq<nat>)
    requires IsSplit(chunks, j, groups + 1, cuts) && groups >= 1
    ensures j < cuts[1] < |chunks| - 1 && IsSplit(chunks, cuts[1], groups, cuts[1..])
  {
    var tail := cuts[1..];
    assert forall a :: 0 <= a <= groups ==> tail[a] == cuts[a + 1];
  }

  lemma SplitCons(f: Scorer, chunks: seq<Chunk>, n: nat, j: nat, groups: nat, tail: seq<nat>)
    requires Covering(chunks, n)
    requires tail != [] && IsSplit(chunks, tail[0], groups, tail) && j < tail[0]
    ensures tail[0] < |chunks| && chunks[j].firstId <= chunks[tail[0]].firstId
    ensures IsSplit(chunks, j, groups + 1, [j] + tail)
    ensures SplitCost(f, chunks, n, [j] + tail) ==
            Plus(GroupCost(f, chunks, j, tail[0]), SplitCost(f, chunks, n, tail))
  {
    var cuts := [j] + tail;
    FirstIdsIncrease(chunks, n, j, tail[0]);
    assert forall a, b :: 1 <= a < b <= groups + 1 ==> cuts[a] == tail[a - 1] && cuts[b] == tail[b - 1];
    assert forall b :: 1 <= b <= groups + 1 ==> cuts[b] == tail[b - 1] >= tail[0] > j;
    assert cuts[1..] == tail;
  }

  lemma NoSplitBeatsBest(f: Scorer, chunks: seq<Chunk>, n: nat, prev: seq<Cost>, j: nat, groups: nat, best: Entry,
                         cuts: seq<nat>)
    requires Covering(chunks, n) && |prev| == |chunks| - 1 && groups >= 1
    requires forall k :: j < k < |chunks| - 1 ==> Optimal(f, chunks, n, k, groups, prev[k])
    requires BestOver(f, chunks, n, prev, j, |chunks| - 1, best)
    requires IsSplit(chunks, j, groups + 1, cuts)
    ensures !Less(SplitCost(f, chunks, n, cuts), best.score)
  {
    SplitTail(chunks, j, groups, cuts);
    var k := cuts[1];
    assert Optimal(f, chunks, n, k, groups, prev[k]);
    assert !Less(SplitCost(f, chunks, n, cuts[1..]), prev[k]);
    assert !Less(Candidate(f, chunks, n, prev, j, k), best.score);
  }

  /** Extending optimal splits by one group with the best first cut is optimal. */
  lemma BestIsOptimal(f: Scorer, chunks: seq<Chunk>, n: nat, prev: seq<Cost>, j: nat, groups: nat, best: Entry)
    requires Covering(chunks, n) && |prev| == |chunks| - 1 && j < |chunks| - 1 && groups >= 1
    requires forall k :: j < k < |chunks| - 1 ==> Optimal(f, chunks, n, k, groups, prev[k])
    requires BestOver(f, chunks, n, prev, j, |chunks| - 1, best)
    ensures Optimal(f, chunks, n, j, groups + 1, best.score)
  {
    var last := |chunks| - 1;
    forall cuts | IsSplit(chunks, j, groups + 1, cuts)
      ensures !Less(SplitCost(f, chunks, n, cuts), best.score)
    {
      NoSplitBeatsBest(f, chunks, n, prev, j, groups, best, cuts);
    }
    if last - j >= groups + 1 {
      assert Optimal(f, chunks, n, j + 1, groups, prev[j + 1]);
      assert !Less(Candidate(f, chunks, n, prev, j, j + 1), best.score);
    }
    if best.score.Finite? {
      var k := best.link;
      assert Optimal(f, chunks, n, k, groups, prev[k]);
      var tail :| IsSplit(chunks, k, groups, tail) && SplitCost(f, chunks, n, tail) == prev[k];
      SplitCons(f, chunks, n, j, groups, tail);
    }
  }

  /** The search for the best first cut, which gives up as soon as the first group alone is too dear. */
  method BestSplit(f: Scorer, chunks: seq<Chunk>, ghost n: nat, t: array2<Entry>, i: nat, j: nat, ghost prev: seq<Cost>)
    returns (best: Entry)
    requires Covering(chunks, n) && Monotone(f) && j < |chunks| - 1
    requires t.Length0 == |chunks| && 1 <= i < t.Length1
    requires |prev| == |chunks| - 1
    requires forall k :: 0 <= k < |prev| ==> prev[k] == t[k, i - 1].score && NonNegative(prev[k])
    ensures BestOver(f, chunks, n, prev, j, |chunks| - 1, best) && NonNegative(best.score)
  {
    best := Entry(Top, 0);
    var cnt: nat := chunks[j].count;
    var k := j + 1;
    while k < |chunks| - 1
      invariant j < k <= |chunks| - 1
      invariant cnt == chunks[k].firstId - chunks[j].firstId
      invariant BestOver(f, chunks, n, prev, j, k, best) && NonNegative(best.score)
    {
      var local := Score(f, chunks[j].length, cnt);
      if Less(best.score, local) {
        PruningIsSafe(f, chunks, n, prev, j, k, best);
        return;
      }
      var score := Plus(local, t[k, i - 1].score);
      assert score == Candidate(f, chunks, n, prev, j, k);
      if Less(score, best.score) {
        best := Entry(score, k);
      }
      cnt := cnt + chunks[k].count;
      k := k + 1;
    }
  }

  /** Once the first group alone costs more than the best split, no longer first group can win. */
  lemma PruningIsSafe(f: Scorer, chunks: seq<Chunk>, n: nat, prev: seq<Cost>, j: nat, k: nat, best: Entry)
    requires Covering(chunks, n) && Monotone(f) && |prev| == |chunks| - 1 && j < k < |chunks| - 1
    requires forall m :: 0 <= m < |prev| ==> NonNegative(prev[m])
    requires BestOver(f, chunks, n, prev, j, k, best)
    requires chunks[j].firstId <= chunks[k].firstId && Less(best.score, GroupCost(f, chunks, j, k))
    ensures BestOver(f, chunks, n, prev, j, |chunks| - 1, best)
  {
    forall m | j < m < |chunks| - 1 ensures !Less(Candidate(f, chunks, n, prev, j, m), best.score) {
      if k <= m {
        FirstIdsIncrease(chunks, n, j, m);
        if k < m { FirstIdsIncrease(chunks, n, k, m); }
        var len := chunks[j].length;
        assert f(len, chunks[k].firstId - chunks[j].firstId) <= f(len, chunks[m].firstId - chunks[j].firstId);
        assert NonNegative(prev[m]);
      }
    }
  }

  /** An entry of a filled table: optimal, its link pointing at the split behind its score.
      `rest` is the score recorded at the link in the previous column. */
  ghost predicate EntryExact(f: Scorer, chunks: seq<Chunk>, n: nat, i: nat, j: nat, e: Entry, rest: Cost)
    requires Covering(chunks, n) && j < |chunks| - 1
  {
    && Optimal(f, chunks, n, j, i + 1, e.score) && NonNegative(e.score)
    && (i == 0 || e.score.Top? ==> e.link == 0)
    && (i > 0 && e.score.Finite? ==>
          && j < e.link < |chunks| - 1
          && chunks[j].firstId <= chunks[e.link].firstId
          && e.score == Plus(GroupCost(f, chunks, j, e.link), rest))
  }

  ghost predicate Filled(f: Scorer, chunks: seq<Chunk>, n: nat, t: array2<Entry>, i: nat, j: nat)
    requires Covering(chunks, n) && t.Length0 == |chunks| && i < t.Length1 && j < |chunks| - 1
    reads t
  {
    EntryExact(f, chunks, n, i, j, t[j, i], if i > 0 && t[j, i].link < |chunks| then t[t[j, i].link, i - 1].score else Top)
  }

  lemma FirstEntryExact(f: Scorer, chunks: seq<Chunk>, n: nat, j: nat)
    requires Covering(chunks, n) && Monotone(f) && j < |chunks| - 1
    ensures chunks[j].firstId <= n
    ensures EntryExact(f, chunks, n, 0, j, Entry(Score(f, chunks[j].length, n - chunks[j].firstId), 0), Top)
  {
    OneGroupOptimal(f, chunks, n, j);
  }

  lemma BestEntryExact(f: Scorer, chunks: seq<Chunk>, n: nat, prev: seq<Cost>, i: nat, j: nat, best: Entry)
    requires Covering(chunks, n) && |prev| == |chunks| - 1 && j < |chunks| - 1 && i >= 1
    requires forall k :: j < k < |chunks| - 1 ==> Optimal(f, chunks, n, k, i, prev[k])
    requires BestOver(f, chunks, n, prev, j, |chunks| - 1, best) && NonNegative(best.score)
    ensures best.link < |chunks| - 1
    ensures EntryExact(f, chunks, n, i, j, best, prev[best.link])
  {
    BestIsOptimal(f, chunks, n, prev, j, i, best);
    if best.score.Finite? {
      FirstIdsIncrease(chunks, n, j, best.link);
    }
  }

  lemma LinkInside(f: Scorer, chunks: seq<Chunk>, n: nat, i: nat, j: nat, e: Entry, rest: Cost)
    requires Covering(chunks, n) && j < |chunks| - 1 && EntryExact(f, chunks, n, i, j, e, rest)
    ensures e.link < |chunks| - 1
  {
  }

  lemma EntryFacts(f: Scorer, chunks: seq<Chunk>, n: nat, i: nat, j: nat, e: Entry, rest: Cost)
    requires Covering(chunks, n) && j < |chunks| - 1 && EntryExact(f, chunks, n, i, j, e, rest)
    ensures Optimal(f, chunks, n, j, i + 1, e.score) && NonNegative(e.score)
  {
  }

  /** The dynamic program. */
  method FillTable(f: Scorer, chunks: seq<Chunk>, ghost n: nat, numBuckets: nat) returns (t: array2<Entry>)
    requires Covering(chunks, n) && Monotone(f) && numBuckets >= 1
    ensures t.Length0 == |chunks| && t.Length1 == numBuckets
    ensures forall i, j :: 0 <= i < numBuckets && 0 <= j < |chunks| - 1 ==> Filled(f, chunks, n, t, i, j)
  {
    t := new Entry[|chunks|, numBuckets];
    FillFirstColumn(f, chunks, n, t);
    for i := 1 to numBuckets
      invariant forall i', j :: 0 <= i' < i && 0 <= j < |chunks| - 1 ==> Filled(f, chunks, n, t, i', j)
    {
      FillColumn(f, chunks, n, t, i);
    }
  }

  method FillFirstColumn(f: Scorer, chunks: seq<Chunk>, ghost n: nat, t: array2<Entry>)
    requires Covering(chunks, n) && Monotone(f)
    requires t.Length0 == |chunks| && t.Length1 >= 1
    modifies t
    ensures forall j :: 0 <= j < |chunks| - 1 ==> Filled(f, chunks, n, t, 0, j)
  {
    hide EntryExact, Score;
    for j := 0 to |chunks|
      invariant forall j' :: 0 <= j' < j && j' < |chunks| - 1 ==> Filled(f, chunks, n, t, 0, j')
    {
      var cnt: nat := 0;
      for k := j to |chunks|
        invariant chunks[j].firstId + cnt == if k < |chunks| then chunks[k].firstId else n
      {
        cnt := cnt + chunks[k].count;
      }
      label L:
      t[j, 0] := Entry(Score(f, chunks[j].length, cnt), 0);
      forall j' | 0 <= j' < j ensures j' < |chunks| - 1 && Filled(f, chunks, n, t, 0, j') {
        assert old@L(Filled(f, chunks, n, t, 0, j'));
      }
      if j < |chunks| - 1 {
        FirstEntryExact(f, chunks, n, j);
        assert cnt == n - chunks[j].firstId;
        assert Filled(f, chunks, n, t, 0, j);
      }
    }
  }

  method FillColumn(f: Scorer, chunks: seq<Chunk>, ghost n: nat, t: array2<Entry>, i: nat)
    requires Covering(chunks, n) && Monotone(f)
    requires t.Length0 == |chunks| && 1 <= i < t.Length1
    requires forall i', j :: 0 <= i' < i && 0 <= j < |chunks| - 1 ==> Filled(f, chunks, n, t, i', j)
    modifies t
    ensures forall i', j :: 0 <= i' <= i && 0 <= j < |chunks| - 1 ==> Filled(f, chunks, n, t, i', j)
  {
    hide EntryExact, Optimal, BestOver;
    ghost var prev := seq(|chunks| - 1, k requires 0 <= k < |chunks| - 1 reads t => t[k, i - 1].score);
    for j := 0 to |chunks| - 1
      invariant forall i', k :: 0 <= i' < i && 0 <= k < |chunks| - 1 ==> Filled(f, chunks, n, t, i', k)
      invariant forall k :: 0 <= k < j ==> Filled(f, chunks, n, t, i, k)
      invariant forall k :: 0 <= k < |prev| ==> prev[k] == t[k, i - 1].score
    {
      forall k | 0 <= k < |prev| ensures NonNegative(prev[k]) && Optimal(f, chunks, n, k, i, prev[k]) {
        assert Filled(f, chunks, n, t, i - 1, k);
        EntryFacts(f, chunks, n, i - 1, k, t[k, i - 1],
          if i - 1 > 0 && t[k, i - 1].link < |chunks| then t[t[k, i - 1].link, i - 2].score else Top);
      }
      var best := BestSplit(f, chunks, n, t, i, j, prev);
      BestEntryExact(f, chunks, n, prev, i, j, best);
      label L:
      t[j, i] := best;
      forall i', k | 0 <= i' <= i && 0 <= k < |chunks| - 1 && (i' < i || k < j) ensures Filled(f, chunks, n, t, i', k) {
        assert old@L(Filled(f, chunks, n, t, i', k));
      }
      assert Filled(f, chunks, n, t, i, j);
    }
    label M:
    t[|chunks| - 1, i] := Entry(Finite(0.0), 0);
    forall i', k | 0 <= i' <= i && 0 <= k < |chunks| - 1 ensures Filled(f, chunks, n, t, i', k) {
      assert old@M(Filled(f, chunks, n, t, i', k));
      LinkInside(f, chunks, n, i', k, t[k, i'],
        if i' > 0 && t[k, i'].link < |chunks| then old@M(t[t[k, i'].link, i' - 1].score) else Top);
    }
  }

  /** The cut points reached by following the links from chunk i with m buckets left. */
  ghost function Follow(chunks: seq<Chunk>, t: array2<Entry>, i: nat, m: nat): seq<nat>
    requires t.Length0 == |chunks| >= 1 && m <= t.Length1 && i < |chunks|
    reads t
    decreases m
  {
    if m <= 1 then [i, |chunks| - 1]
    else if t[i, m - 1].link < |chunks| then [i] + Follow(chunks, t, t[i, m - 1].link, m - 1)
    else [i]
  }

  /** Following the links of a finite entry yields a split of exactly that cost. */
  lemma {:induction false} FollowExact(f: Scorer, chunks: seq<Chunk>, n: nat, t: array2<Entry>, i: nat, m: nat)
    requires Covering(chunks, n) && t.Length0 == |chunks| && 1 <= m <= t.Length1 && i < |chunks| - 1
    requires forall i', j :: 0 <= i' < t.Length1 && 0 <= j < |chunks| - 1 ==> Filled(f, chunks, n, t, i', j)
    requires t[i, m - 1].score.Finite?
    ensures IsSplit(chunks, i, m, Follow(chunks, t, i, m))
    ensures SplitCost(f, chunks, n, Follow(chunks, t, i, m)) == t[i, m - 1].score
    decreases m
  {
    assert Filled(f, chunks, n, t, m - 1, i);
    if m == 1 {
      var cuts :| IsSplit(chunks, i, 1, cuts) && SplitCost(f, chunks, n, cuts) == t[i, 0].score;
      assert cuts == [i, |chunks| - 1];
    } else {
      var k := t[i, m - 1].link;
      FollowExact(f, chunks, n, t, k, m - 1);
      SplitCons(f, chunks, n, i, m - 1, Follow(chunks, t, k, m - 1));
    }
  }

  /** The ids lo..hi, longest literals first. */
  function Descending(lo: nat, hi: nat): (r: seq<nat>)
    requires lo <= hi
    ensures |r| == hi - lo && forall k :: 0 <= k < |r| ==> r[k] == hi - k - 1
  {
    seq(hi - lo, k requires 0 <= k < hi - lo => hi - k - 1)
  }

  /** The literals of chunks a..b make up one bucket. */
  ghost predicate IsBucket(chunks: seq<Chunk>, a: nat, b: nat, bucket: seq<nat>) {
    && a < b < |chunks|
    && chunks[a].firstId < chunks[b].firstId
    && bucket == Descending(chunks[a].firstId, chunks[b].firstId)
  }

  /** Bucket q holds the literals of the chunks between cut q and cut q+1. */
  ghost predicate Placed(chunks: seq<Chunk>, cuts: seq<nat>, buckets: seq<seq<nat>>) {
    && |cuts| == |buckets| + 1
    && (forall q :: 0 <= q < |buckets| ==> IsBucket(chunks, cuts[q], cuts[q + 1], buckets[q]))
  }

  lemma PlaceOne(chunks: seq<Chunk>, cuts: seq<nat>, buckets: seq<seq<nat>>, j: nat, ids: seq<nat>)
    requires Placed(chunks, cuts, buckets) && IsBucket(chunks, cuts[|buckets|], j, ids)
    ensures Placed(chunks, cuts + [j], buckets + [ids])
  {
    var cs, bs := cuts + [j], buckets + [ids];
    forall q | 0 <= q < |bs| ensures IsBucket(chunks, cs[q], cs[q + 1], bs[q]) {
      if q < |buckets| {
        assert cs[q] == cuts[q] && cs[q + 1] == cuts[q + 1] && bs[q] == buckets[q];
      }
    }
  }

  method LitsOf(first: nat, last: nat) returns (ids: seq<nat>)
    requires first <= last
    ensures ids == Descending(first, last)
  {
    ids := [];
    for k := 0 to last - first
      invariant |ids| == k && forall x :: 0 <= x < k ==> ids[x] == last - x - 1
    {
      ids := ids + [last - k - 1];
    }
  }

  /** Follow the links from the best score: exactly `numBuckets` buckets of least total cost, or a single
      bucket with everything when there are fewer chunks than buckets. */
  method FollowLinks(f: Scorer, chunks: seq<Chunk>, ghost n: nat, t: array2<Entry>, numBuckets: nat)
    returns (buckets: seq<seq<nat>>, ghost cuts: seq<nat>)
    requires Covering(chunks, n) && numBuckets >= 1
    requires t.Length0 == |chunks| && t.Length1 == numBuckets
    requires forall i, j :: 0 <= i < numBuckets && 0 <= j < |chunks| - 1 ==> Filled(f, chunks, n, t, i, j)
    ensures Placed(chunks, cuts, buckets)
    ensures IsSplit(chunks, 0, |buckets|, cuts)
    ensures |chunks| - 1 >= numBuckets ==>
              |buckets| == numBuckets && Optimal(f, chunks, n, 0, numBuckets, SplitCost(f, chunks, n, cuts))
    ensures |chunks| - 1 < numBuckets ==> |buckets| == 1
  {
    hide Optimal, Placed, Follow, EntryExact;
    ghost var last := |chunks| - 1;
    ghost var enough := last >= numBuckets;
    FirstLink(f, chunks, n, t, numBuckets);
    buckets, cuts := [], [0];
    NonePlaced(chunks);
    var i, m := 0, numBuckets;
    while m > 0 && i != |chunks| - 1
      invariant 0 <= i <= last && 0 <= m <= numBuckets
      invariant Placed(chunks, cuts, buckets) && |cuts| == |buckets| + 1 && cuts[0] == 0 && cuts[|buckets|] == i
      invariant |buckets| == numBuckets - m
      invariant enough && m > 0 ==> i < last && t[i, m - 1].score.Finite?
      invariant enough && m > 0 ==> cuts[..|buckets|] + Follow(chunks, t, i, m) == Follow(chunks, t, 0, numBuckets)
      invariant enough && m == 0 ==> i == last && cuts == Follow(chunks, t, 0, numBuckets)
      invariant !enough ==> (i == 0 && m == numBuckets) || (i == last && m == numBuckets - 1)
      decreases m
    {
      ghost var before := cuts[..|buckets|];
      assert cuts == before + [i];
      var j := t[i, m - 1].link;
      if j == 0 {
        j := |chunks| - 1;
      }
      LinkForward(f, chunks, n, t, i, m);
      FirstIdsIncrease(chunks, n, i, j);
      var ids := LitsOf(chunks[i].firstId, chunks[j].firstId);
      PlaceOne(chunks, cuts, buckets, j, ids);
      if enough {
        FollowStep(f, chunks, n, t, before, i, j, m);
      }
      buckets := buckets + [ids];
      cuts := cuts + [j];
      assert cuts[..|buckets|] == before + [i];
      i := j;
      m := m - 1;
    }
    PlacedIsSplit(chunks, cuts, buckets);
    if enough {
      FollowExact(f, chunks, n, t, 0, numBuckets);
      OptimalEntry(f, chunks, n, t, numBuckets);
    }
  }

  lemma NonePlaced(chunks: seq<Chunk>)
    ensures Placed(chunks, [0], [])
  {
  }

  lemma FirstLink(f: Scorer, chunks: seq<Chunk>, n: nat, t: array2<Entry>, m: nat)
    requires Covering(chunks, n) && t.Length0 == |chunks| && t.Length1 == m >= 1
    requires Filled(f, chunks, n, t, m - 1, 0)
    ensures |chunks| - 1 >= m ==> t[0, m - 1].score.Finite?
    ensures |chunks| - 1 < m ==> t[0, m - 1].link == 0
    ensures [] + Follow(chunks, t, 0, m) == Follow(chunks, t, 0, m)
  {
  }

  lemma LinkForward(f: Scorer, chunks: seq<Chunk>, n: nat, t: array2<Entry>, i: nat, m: nat)
    requires Covering(chunks, n) && t.Length0 == |chunks| && 1 <= m <= t.Length1 && i < |chunks| - 1
    requires Filled(f, chunks, n, t, m - 1, i)
    ensures t[i, m - 1].link == 0 || i < t[i, m - 1].link < |chunks| - 1
  {
  }

  lemma OptimalEntry(f: Scorer, chunks: seq<Chunk>, n: nat, t: array2<Entry>, m: nat)
    requires Covering(chunks, n) && t.Length0 == |chunks| && t.Length1 == m >= 1
    requires Filled(f, chunks, n, t, m - 1, 0)
    ensures Optimal(f, chunks, n, 0, m, t[0, m - 1].score)
  {
  }

  lemma FollowStep(f: Scorer, chunks: seq<Chunk>, n: nat, t: array2<Entry>, before: seq<nat>, i: nat, j: nat, m: nat)
    requires Covering(chunks, n) && t.Length0 == |chunks| && 1 <= m <= t.Length1 && i < |chunks| - 1
    requires Filled(f, chunks, n, t, m - 1, i) && t[i, m - 1].score.Finite?
    requires j == if t[i, m - 1].link == 0 then |chunks| - 1 else t[i, m - 1].link
    ensures m == 1 ==> j == |chunks| - 1 && before + Follow(chunks, t, i, m) == before + [i] + [j]
    ensures m > 1 ==> j < |chunks| - 1 && t[j, m - 2].score.Finite?
    ensures m > 1 ==> before + Follow(chunks, t, i, m) == before + [i] + Follow(chunks, t, j, m - 1)
  {
    if m > 1 {
      assert before + ([i] + Follow(chunks, t, j, m - 1)) == before + [i] + Follow(chunks, t, j, m - 1);
    }
  }

  lemma PlacedIsSplit(chunks: seq<Chunk>, cuts: seq<nat>, buckets: seq<seq<nat>>)
    requires Placed(chunks, cuts, buckets) && buckets != [] && cuts[0] == 0 && cuts[|buckets|] == |chunks| - 1
    ensures IsSplit(chunks, 0, |buckets|, cuts)
  {
    forall a, b | 0 <= a < b <= |buckets| ensures cuts[a] < cuts[b] {
      CutsIncrease(chunks, cuts, buckets, a, b);
    }
  }

  lemma {:induction false} CutsIncrease(chunks: seq<Chunk>, cuts: seq<nat>, buckets: seq<seq<nat>>, a: nat, b: nat)
    requires Placed(chunks, cuts, buckets) && a < b <= |buckets|
    ensures cuts[a] < cuts[b] < |chunks|
    ensures chunks[cuts[a]].firstId < chunks[cuts[b]].firstId
    decreases b
  {
    assert IsBucket(chunks, cuts[b - 1], cuts[b], buckets[b - 1]);
    if a < b - 1 {
      CutsIncrease(chunks, cuts, buckets, a, b - 1);
    }
  }
}
