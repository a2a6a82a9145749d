/** The shift-or scan of FDR: what the table rules out, and what it lets through to be confirmed. */
module FdrScan {
  import opened Common
  import opened Bits
  import opened Literals
  import opened FdrMasks
  import opened FdrTable

  // Vectors of sixteen bytes ------------------------------------------------------------------------------------

  ghost predicate IsVector(s: seq<Byte>) { |s| == 16 }

  function OrByte(x: Byte, y: Byte): (r: Byte)
    ensures forall b: nat :: b < 8 ==> (Bit(r, b) <==> Bit(x, b) || Bit(y, b))
  {
    assert Or(x, y) < 256 by { OrBound(x, y); }
    assert forall b: nat :: b < 8 ==> (Bit(Or(x, y), b) <==> Bit(x, b) || Bit(y, b)) by {
      forall b: nat | b < 8
        ensures Bit(Or(x, y), b) <==> Bit(x, b) || Bit(y, b)
      {
        BitOr(x, y, b);
      }
    }
    Or(x, y)
  }

  lemma OrBound(x: Byte, y: Byte)
    ensures Or(x, y) < 256
  {
    assert Pow2(8) == 256;
    forall k: nat | k >= 8
      ensures !Bit(Or(x, y), k)
    {
      BitOr(x, y, k);
      BitHigh(x, 8, k);
      BitHigh(y, 8, k);
    }
    BoundedByBits(Or(x, y), 8);
  }

  function NotByte(x: Byte): (r: Byte)
    ensures forall b: nat :: b < 8 ==> (Bit(r, b) <==> !Bit(x, b))
  {
    assert Not(x, 8) < 256 by {
      assert Pow2(8) == 256;
      NotValue(x, 8);
    }
    assert forall b: nat :: b < 8 ==> (Bit(Not(x, 8), b) <==> !Bit(x, b)) by {
      forall b: nat | b < 8
        ensures Bit(Not(x, 8), b) <==> !Bit(x, b)
      {
        BitNot(x, 8, b);
      }
    }
    Not(x, 8)
  }

  function Or128(x: seq<Byte>, y: seq<Byte>): (r: seq<Byte>)
    requires IsVector(x) && IsVector(y)
    ensures IsVector(r) && forall q :: 0 <= q < 16 ==> r[q] == OrByte(x[q], y[q])
  {
    seq(16, q requires 0 <= q < 16 => OrByte(x[q], y[q]))
  }

  function Zeros(n: nat): (r: seq<Byte>)
    ensures |r| == n && forall q :: 0 <= q < n ==> r[q] == 0
  {
    seq(n, _ => 0)
  }

  function ShiftUp(s: seq<Byte>, n: nat): (r: seq<Byte>)
    requires IsVector(s) && n <= 16
    ensures IsVector(r)
  {
    Zeros(n) + s[..16 - n]
  }

  function ShiftDown(s: seq<Byte>, n: nat): (r: seq<Byte>)
    requires IsVector(s) && n <= 16
    ensures IsVector(r)
  {
    s[n..] + Zeros(n)
  }

  /** An entry of the table in the low half of a vector. */
  function LoadEntry(tab: seq<Byte>, i: nat): (r: seq<Byte>)
    requires 8 * i + 8 <= |tab|
    ensures IsVector(r)
  {
    tab[8 * i..8 * i + 8] + Zeros(8)
  }

  // What the scan means -----------------------------------------------------------------------------------------

  /** The table index of the two bytes at p. */
  function IndexAt(text: seq<Byte>, p: nat, bits: nat): nat
    requires p + 1 < |text|
  {
    (text[p] + 256 * text[p + 1]) % Pow2(bits)
  }

  /** The lookup at p rules out bucket b for a literal that ends at e. */
  ghost predicate RulesOut(tab: seq<Byte>, text: seq<Byte>, bits: nat, p: nat, e: nat, b: nat) {
    && p + 1 < |text| && |tab| == 8 * Pow2(bits) && p <= e < p + 8
    && IndexAt(text, p, bits) < Pow2(bits) && Bit(tab[8 * IndexAt(text, p, bits) + (e - p)], b)
  }

  /** One of the lookups from z up to `upto`, every `stride` bytes, or the initial state rules out bucket b at e. */
  ghost predicate Blocked(tab: seq<Byte>, text: seq<Byte>, bits: nat, stride: nat, init: seq<Byte>, z: nat, upto: nat,
                          e: nat, b: nat)
    requires stride > 0
  {
    || (z <= e < z + |init| && Bit(init[e - z], b))
    || exists p: nat :: z <= p < upto && (p - z) % stride == 0 && RulesOut(tab, text, bits, p, e, b)
  }

  /** The state before position p stands for everything that was looked up before it. */
  ghost predicate StateAt(tab: seq<Byte>, text: seq<Byte>, bits: nat, stride: nat, init: seq<Byte>, z: nat, upto: nat,
                          p: nat, s: seq<Byte>)
    requires stride > 0
  {
    && IsVector(s)
    && forall q: nat, b: nat :: q < 16 && b < 8 ==>
         (Bit(s[q], b) <==> Blocked(tab, text, bits, stride, init, z, upto, p + q, b))
  }

  lemma {:induction false} AndOnes(x: nat, w: nat)
    ensures And(x, Ones(w)) == x % Pow2(w)
    decreases w
  {
    if w == 0 {
      assert Ones(0) == 0;
    } else {
      assert Ones(w) == 2 * Ones(w - 1) + 1;
      AndOnes(x / 2, w - 1);
      SplitModulus(x, Pow2(w - 1));
      assert Ones(w) / 2 == Ones(w - 1) && Ones(w) % 2 == 1;
    }
  }

  lemma SplitModulus(x: nat, n: nat)
    requires n > 0
    ensures x % (2 * n) == 2 * (x / 2 % n) + x % 2
  {
    var q, r := x / 2 / n, x / 2 % n;
    assert x / 2 == n * q + r;
    assert x == 2 * n * q + (2 * r + x % 2);
    Quotient(x, 2 * n, q, 2 * r + x % 2);
  }

  lemma WindowIsIndex(text: seq<Byte>, p: nat, bits: nat)
    requires p + 1 < |text|
    ensures WindowIndex(text, p, bits) == IndexAt(text, p, bits) < Pow2(bits)
  {
    AndOnes((text[p + 1] as int) * 256 + text[p], bits);
  }

  lemma NoBit(b: nat)
    ensures !Bit(0, b)
  {
    BitOfZero(b);
  }

  /** One lookup, shifted to its place and merged into the state. */
  lemma LookupKeeps(tab: seq<Byte>, text: seq<Byte>, bits: nat, stride: nat, init: seq<Byte>, z: nat, p: nat, j: nat,
                    s: seq<Byte>, s': seq<Byte>)
    requires stride > 0 && z <= p && j < 8 && p + j + 1 < |text| && |tab| == 8 * Pow2(bits)
    requires IndexAt(text, p + j, bits) < Pow2(bits)
    requires StateAt(tab, text, bits, stride, init, z, p + j, p, s)
    requires s' == if (p + j - z) % stride == 0
                   then Or128(s, ShiftUp(LoadEntry(tab, IndexAt(text, p + j, bits)), j)) else s
    ensures StateAt(tab, text, bits, stride, init, z, p + j + 1, p, s')
  {
    hide IndexAt, OrByte, Pow2, Blocked, RulesOut, ShiftUp, LoadEntry, Or128;
    var i := IndexAt(text, p + j, bits);
    forall q: nat, b: nat | q < 16 && b < 8
      ensures Bit(s'[q], b) <==> Blocked(tab, text, bits, stride, init, z, p + j + 1, p + q, b)
    {
      StateBit(tab, text, bits, stride, init, z, p + j, p, s, q, b);
      BlockedStep(tab, text, bits, stride, init, z, p + j, p + q, b);
      if (p + j - z) % stride == 0 {
        EntryBit(tab, text, bits, p, j, q, b);
        assert s'[q] == OrByte(s[q], ShiftUp(LoadEntry(tab, i), j)[q]);
      }
    }
  }

  lemma BlockedStep(tab: seq<Byte>, text: seq<Byte>, bits: nat, stride: nat, init: seq<Byte>, z: nat, upto: nat, e: nat,
                    b: nat)
    requires stride > 0 && z <= upto
    ensures Blocked(tab, text, bits, stride, init, z, upto + 1, e, b) <==>
            || Blocked(tab, text, bits, stride, init, z, upto, e, b)
            || ((upto - z) % stride == 0 && RulesOut(tab, text, bits, upto, e, b))
  {
    hide RulesOut;
  }

  lemma EntryBit(tab: seq<Byte>, text: seq<Byte>, bits: nat, p: nat, j: nat, q: nat, b: nat)
    requires j < 8 && q < 16 && p + j + 1 < |text| && |tab| == 8 * Pow2(bits) && IndexAt(text, p + j, bits) < Pow2(bits)
    ensures Bit(ShiftUp(LoadEntry(tab, IndexAt(text, p + j, bits)), j)[q], b) <==> RulesOut(tab, text, bits, p + j, p + q, b)
  {
    hide IndexAt, Pow2;
    NoBit(b);
  }

  /** Eight bytes on: the low half of the state has been used up. */
  lemma ShiftKeeps(tab: seq<Byte>, text: seq<Byte>, bits: nat, stride: nat, init: seq<Byte>, z: nat, p: nat, s: seq<Byte>)
    requires stride > 0 && z <= p && |init| == 16 && StateAt(tab, text, bits, stride, init, z, p + 8, p, s)
    ensures StateAt(tab, text, bits, stride, init, z, p + 8, p + 8, ShiftDown(s, 8))
  {
    hide IndexAt, Pow2;
    var s' := ShiftDown(s, 8);
    forall q: nat, b: nat | q < 16 && b < 8
      ensures Bit(s'[q], b) <==> Blocked(tab, text, bits, stride, init, z, p + 8, p + 8 + q, b)
    {
      NoBit(b);
      if q < 8 {
        assert s'[q] == s[q + 8];
      }
    }
  }

  // The scan ----------------------------------------------------------------------------------------------------

  /** Half an iteration: eight bytes are looked up, as the stride says, and eight bytes of candidates come out. */
  method ConfHalf(tab: seq<Byte>, text: seq<Byte>, bits: nat, stride: nat, p: nat, s: seq<Byte>, ghost init: seq<Byte>,
                  ghost z: nat)
    returns (conf: seq<Byte>, s': seq<Byte>)
    requires stride in {1, 2, 4} && |tab| == 8 * Pow2(bits) && z <= p && (p - z) % 8 == 0 && p + 8 < |text|
    requires IsVector(init) && IsVector(s) && StateAt(tab, text, bits, stride, init, z, p, p, s)
    ensures IsVector(s') && StateAt(tab, text, bits, stride, init, z, p + 8, p + 8, s')
    ensures |conf| == 8
    ensures forall j: nat, b: nat :: j < 8 && b < 8 ==>
              (Bit(conf[j], b) <==> !Blocked(tab, text, bits, stride, init, z, p + 8, p + j, b))
  {
    hide IndexAt, Blocked, NotByte, Or128, ShiftUp, LoadEntry, ShiftDown, StateAt, Pow2;
    s' := s;
    for j := 0 to 8
      invariant IsVector(s') && StateAt(tab, text, bits, stride, init, z, p + j, p, s')
    {
      WindowIsIndex(text, p + j, bits);
      StrideSteps(p, z, j, stride);
      ghost var before := s';
      if j % stride == 0 {
        s' := Or128(s', ShiftUp(LoadEntry(tab, WindowIndex(text, p + j, bits)), j));
      }
      LookupKeeps(tab, text, bits, stride, init, z, p, j, before, s');
    }
    conf := seq(8, j requires 0 <= j < 8 => NotByte(s'[j]));
    forall j: nat, b: nat | j < 8 && b < 8
      ensures Bit(conf[j], b) <==> !Blocked(tab, text, bits, stride, init, z, p + 8, p + j, b)
    {
      StateBit(tab, text, bits, stride, init, z, p + 8, p, s', j, b);
    }
    ShiftKeeps(tab, text, bits, stride, init, z, p, s');
    s' := ShiftDown(s', 8);
  }

  lemma StateBit(tab: seq<Byte>, text: seq<Byte>, bits: nat, stride: nat, init: seq<Byte>, z: nat, upto: nat, p: nat,
                 s: seq<Byte>, q: nat, b: nat)
    requires stride > 0 && StateAt(tab, text, bits, stride, init, z, upto, p, s) && q < 16 && b < 8
    ensures |s| == 16 && (Bit(s[q], b) <==> Blocked(tab, text, bits, stride, init, z, upto, p + q, b))
  {
  }

  lemma StrideSteps(p: nat, z: nat, j: nat, stride: nat)
    requires stride in {1, 2, 4} && z <= p && (p - z) % 8 == 0
    ensures (p + j - z) % stride == 0 <==> j % stride == 0
  {
  }

  /** The candidates of a stretch of text are exactly the buckets that nothing rules out. */
  ghost predicate Candidates(tab: seq<Byte>, text: seq<Byte>, bits: nat, stride: nat, init: seq<Byte>, z: nat,
                             confs: seq<Byte>)
    requires stride > 0
  {
    forall k: nat, b: nat :: k < |confs| && b < 8 ==>
      (Bit(confs[k], b) <==> !Blocked(tab, text, bits, stride, init, z, z + k + 1, z + k, b))
  }

  /** Lookups behind e have no say in it. */
  lemma BlockedSoon(tab: seq<Byte>, text: seq<Byte>, bits: nat, stride: nat, init: seq<Byte>, z: nat, upto: nat, e: nat,
                    b: nat)
    requires stride > 0 && e < upto
    ensures Blocked(tab, text, bits, stride, init, z, upto, e, b) <==> Blocked(tab, text, bits, stride, init, z, e + 1, e, b)
  {
    hide IndexAt, Pow2;
  }

  lemma MoreCandidates(tab: seq<Byte>, text: seq<Byte>, bits: nat, stride: nat, init: seq<Byte>, z: nat,
                       confs: seq<Byte>, conf: seq<Byte>)
    requires stride > 0 && |conf| == 8 && Candidates(tab, text, bits, stride, init, z, confs)
    requires forall j: nat, b: nat :: j < 8 && b < 8 ==>
               (Bit(conf[j], b) <==>
                !Blocked(tab, text, bits, stride, init, z, z + |confs| + 8, z + |confs| + j, b))
    ensures Candidates(tab, text, bits, stride, init, z, confs + conf)
  {
    hide Blocked;
    var all, n := confs + conf, |confs|;
    forall k: nat, b: nat | k < |all| && b < 8
      ensures Bit(all[k], b) <==> !Blocked(tab, text, bits, stride, init, z, z + k + 1, z + k, b)
    {
      if k >= n {
        var j: nat := k - n;
        assert all[k] == conf[j];
        BlockedSoon(tab, text, bits, stride, init, z, z + n + 8, z + n + j, b);
      }
    }
  }

  /** Scan n iterations of sixteen bytes from z on. The byte behind them is readable. */
  method ScanRun(tab: seq<Byte>, text: seq<Byte>, bits: nat, stride: nat, init: seq<Byte>, z: nat, n: nat)
    returns (confs: seq<Byte>, s: seq<Byte>)
    requires stride in {1, 2, 4} && |tab| == 8 * Pow2(bits) && IsVector(init) && z + 16 * n < |text|
    ensures |confs| == 16 * n && Candidates(tab, text, bits, stride, init, z, confs)
    ensures StateAt(tab, text, bits, stride, init, z, z + 16 * n, z + 16 * n, s)
  {
    hide Blocked, StateAt, Candidates, Pow2;
    s, confs := init, [];
    NothingScanned(tab, text, bits, stride, init, z);
    for i := 0 to n
      invariant |confs| == 16 * i && Candidates(tab, text, bits, stride, init, z, confs)
      invariant IsVector(s) && StateAt(tab, text, bits, stride, init, z, z + 16 * i, z + 16 * i, s)
    {
      var p := z + 16 * i;
      var conf0, conf8;
      conf0, s := ConfHalf(tab, text, bits, stride, p, s, init, z);
      MoreCandidates(tab, text, bits, stride, init, z, confs, conf0);
      confs := confs + conf0;
      conf8, s := ConfHalf(tab, text, bits, stride, p + 8, s, init, z);
      MoreCandidates(tab, text, bits, stride, init, z, confs, conf8);
      confs := confs + conf8;
    }
  }

  lemma NothingScanned(tab: seq<Byte>, text: seq<Byte>, bits: nat, stride: nat, init: seq<Byte>, z: nat)
    requires stride > 0 && IsVector(init)
    ensures StateAt(tab, text, bits, stride, init, z, z, z, init) && Candidates(tab, text, bits, stride, init, z, [])
  {
  }

  // Literals ----------------------------------------------------------------------------------------------------

  /** With an exact table a bucket is a candidate at e if and only if the initial state leaves it open and, at every
      lookup, some literal of the bucket allows what is read there. */
  lemma CandidateIff(tab: seq<Byte>, lits: seq<Literal>, buckets: seq<seq<nat>>, bits: nat, text: seq<Byte>, stride: nat,
                     init: seq<Byte>, z: nat, e: nat, b: nat)
    requires stride > 0 && TableExact(tab, lits, buckets, bits) && IsVector(init) && z <= e && e + 1 < |text| && b < 8
    ensures !Blocked(tab, text, bits, stride, init, z, e + 1, e, b) <==>
            && (e < z + 16 ==> !Bit(init[e - z], b))
            && forall p: nat :: z <= p <= e < p + 8 && (p - z) % stride == 0 ==>
                 BucketAllows(lits, buckets, bits, b, e - p, IndexAt(text, p, bits))
  {
    hide IndexAt, Pow2, BucketAllows;
    forall p: nat | z <= p <= e < p + 8
      ensures RulesOut(tab, text, bits, p, e, b) <==> !BucketAllows(lits, buckets, bits, b, e - p, IndexAt(text, p, bits))
    {
      WindowIsIndex(text, p, bits);
    }
  }

  /** A literal that occurs is a candidate, whatever the stride, unless the initial state rules it out. */
  lemma OccurrenceIsCandidate(tab: seq<Byte>, lits: seq<Literal>, buckets: seq<seq<nat>>, bits: nat, text: seq<Byte>,
                              stride: nat, init: seq<Byte>, z: nat, e: nat, b: nat, x: nat)
    requires stride > 0 && TableExact(tab, lits, buckets, bits) && IsVector(init) && z <= e && e + 1 < |text| && b < 8
    requires b < |buckets| && x in buckets[b] && x < |lits| && OccursAt(lits[x], text, e)
    requires e < z + 16 ==> !Bit(init[e - z], b)
    ensures !Blocked(tab, text, bits, stride, init, z, e + 1, e, b)
  {
    hide Blocked, IndexAt, Pow2, WindowIndex, TableExact, OccursAt;
    TableDomain(tab, lits, buckets, bits);
    CandidateIff(tab, lits, buckets, bits, text, stride, init, z, e, b);
    forall p: nat | z <= p <= e < p + 8 && (p - z) % stride == 0
      ensures BucketAllows(lits, buckets, bits, b, e - p, IndexAt(text, p, bits))
    {
      WindowIsIndex(text, p, bits);
      NoMissedLiteral(lits, buckets[b], x, bits, e - p, text, e);
    }
  }

  lemma TableDomain(tab: seq<Byte>, lits: seq<Literal>, buckets: seq<seq<nat>>, bits: nat)
    requires TableExact(tab, lits, buckets, bits)
    ensures ValidDomain(bits)
  {
  }

  /** A bucket lists literals, none of them empty. */
  ghost predicate BucketOf(lits: seq<Literal>, ids: seq<nat>) {
    forall x :: x in ids ==> x < |lits| && 0 < |lits[x].s| < 0xFFFF_FFFF
  }

  /** Some literal of the bucket fits in n bytes. */
  ghost predicate SomeFits(lits: seq<Literal>, ids: seq<nat>, n: nat) {
    exists x :: x in ids && x < |lits| && |lits[x].s| <= n
  }

  method ShortestOf(lits: seq<Literal>, ids: seq<nat>) returns (shortest: nat)
    requires BucketOf(lits, ids)
    ensures forall n: nat :: n < 0xFFFF_FFFF ==> (shortest <= n <==> SomeFits(lits, ids, n))
  {
    shortest := 0xFFFF_FFFF;
    for k := 0 to |ids|
      invariant shortest <= 0xFFFF_FFFF
      invariant forall n: nat :: n < 0xFFFF_FFFF ==> (shortest <= n <==> SomeFits(lits, ids[..k], n))
    {
      assert ids[k] in ids;
      var len := |lits[ids[k]].s|;
      var more := ids[..k + 1];
      assert more == ids[..k] + [ids[k]];
      forall n: nat | n < 0xFFFF_FFFF
        ensures SomeFits(lits, more, n) <==> SomeFits(lits, ids[..k], n) || len <= n
      {
        FitsStep(lits, ids[..k], ids[k], n);
      }
      ghost var before := shortest;
      if len < shortest {
        shortest := len;
      }
      forall n: nat | n < 0xFFFF_FFFF
        ensures shortest <= n <==> SomeFits(lits, more, n)
      {
        assert before <= n <==> SomeFits(lits, ids[..k], n);
      }
    }
    assert ids[..|ids|] == ids;
  }

  lemma FitsStep(lits: seq<Literal>, ids: seq<nat>, x: nat, n: nat)
    requires x < |lits|
    ensures SomeFits(lits, ids + [x], n) <==> SomeFits(lits, ids, n) || |lits[x].s| <= n
  {
    if SomeFits(lits, ids, n) {
      var y :| y in ids && y < |lits| && |lits[y].s| <= n;
      assert y in ids + [x];
    }
    assert x in ids + [x];
  }

  /** The state before the first byte of data: bucket b is ruled out at byte q exactly when q < 8 and no literal of the
      bucket is over by then. */
  ghost predicate StartsOpen(lits: seq<Literal>, buckets: seq<seq<nat>>, init: seq<Byte>) {
    && IsVector(init)
    && forall q: nat, b: nat :: q < 16 && b < 8 ==>
         (Bit(init[q], b) <==> q < 8 && !(b < |buckets| && SomeFits(lits, buckets[b], q + 1)))
  }

  method CreateInitialState(lits: seq<Literal>, buckets: seq<seq<nat>>) returns (init: seq<Byte>)
    requires forall b :: 0 <= b < |buckets| ==> BucketOf(lits, buckets[b])
    ensures StartsOpen(lits, buckets, init)
  {
    hide OrByte;
    init := Zeros(16);
    forall b: nat
      ensures !Bit(0, b)
    {
      NoBit(b);
    }
    for b := 0 to 8
      invariant IsVector(init)
      invariant forall q: nat, c: nat :: q < 16 && c < 8 ==>
                  (Bit(init[q], c) <==> c < b && q < 8 && !(c < |buckets| && SomeFits(lits, buckets[c], q + 1)))
    {
      var ids: seq<nat> := if b < |buckets| then buckets[b] else [];
      assert BucketOf(lits, ids);
      var minLen := ShortestOf(lits, ids);
      for i := 0 to 8
        invariant IsVector(init)
        invariant forall q: nat, c: nat :: q < 16 && c < 8 ==>
                    (Bit(init[q], c) <==>
                     && (c < b || (c == b && q < i)) && q < 8
                     && !(c < |buckets| && SomeFits(lits, buckets[c], q + 1)))
      {
        assert minLen <= i + 1 <==> SomeFits(lits, ids, i + 1);
        if i < minLen - 1 {
          init := SetBit(init, i, b);
        }
      }
    }
  }

  function SetBit(s: seq<Byte>, q: nat, b: nat): (r: seq<Byte>)
    requires IsVector(s) && q < 16 && b < 8
    ensures IsVector(r)
    ensures forall q': nat, b': nat :: q' < 16 && b' < 8 ==> (Bit(r[q'], b') <==> Bit(s[q'], b') || (q' == q && b' == b))
  {
    assert Pow2(b) < 256 by {
      assert Pow2(8) == 256;
      Pow2Increases(b, 8);
    }
    var y: Byte := Pow2(b);
    assert forall b': nat :: b' < 8 ==> (Bit(y, b') <==> b' == b) by {
      forall b': nat | b' < 8
        ensures Bit(y, b') <==> b' == b
      {
        BitPow2(b, b');
      }
    }
    s[q := OrByte(s[q], y)]
  }

  /** Compile the literals and scan a buffer without history: every literal that occurs in it is a candidate of its
      bucket where it ends. */
  method CompileAndScan(bits: nat, lits: seq<Literal>, buckets: seq<seq<nat>>, stride: nat, text: seq<Byte>, n: nat)
    returns (confs: seq<Byte>)
    requires 9 <= bits <= 15 && stride in {1, 2, 4} && 16 * n < |text|
    requires forall b :: 0 <= b < |buckets| ==> BucketOf(lits, buckets[b])
    ensures |confs| == 16 * n
    ensures forall b: nat, x: nat, e: nat ::
              b < 8 && b < |buckets| && x in buckets[b] && x < |lits| && e < 16 * n && |lits[x].s| <= e + 1
              && OccursAt(lits[x], text, e) ==>
                Bit(confs[e], b)
  {
    hide Blocked, TableExact, OccursAt, StateAt, Pow2, StartsOpen, FdrCompiler.LitsOf;
    var c := new FdrCompiler(bits, lits, buckets);
    forall b, x | 0 <= b < |buckets| && x in buckets[b]
      ensures x < |lits|
    {
      assert BucketOf(lits, buckets[b]);
    }
    c.SetupTab();
    TableDomain(c.tab[..], lits, buckets, bits);
    TableSize(c.tab[..], lits, buckets, bits);
    var init := CreateInitialState(lits, buckets);
    assert IsVector(init) by { StartVector(lits, buckets, init); }
    var s;
    confs, s := ScanRun(c.tab[..], text, bits, stride, init, 0, n);
    forall b: nat, x: nat, e: nat | b < 8 && b < |buckets| && x in buckets[b] && x < |lits| && e < 16 * n
      && |lits[x].s| <= e + 1 && OccursAt(lits[x], text, e)
      ensures Bit(confs[e], b)
    {
      LongEnough(lits, buckets, init, b, x, e);
      OccurrenceIsCandidate(c.tab[..], lits, buckets, bits, text, stride, init, 0, e, b, x);
      assert Bit(confs[0 + e], b) <==> !Blocked(c.tab[..], text, bits, stride, init, 0, 0 + e + 1, 0 + e, b);
    }
  }

  lemma TableSize(tab: seq<Byte>, lits: seq<Literal>, buckets: seq<seq<nat>>, bits: nat)
    requires TableExact(tab, lits, buckets, bits)
    ensures |tab| == 8 * Pow2(bits)
  {
  }

  lemma StartVector(lits: seq<Literal>, buckets: seq<seq<nat>>, init: seq<Byte>)
    requires StartsOpen(lits, buckets, init)
    ensures IsVector(init)
  {
  }

  lemma LongEnough(lits: seq<Literal>, buckets: seq<seq<nat>>, init: seq<Byte>, b: nat, x: nat, e: nat)
    requires StartsOpen(lits, buckets, init) && b < 8 && b < |buckets| && x in buckets[b] && x < |lits|
    requires |lits[x].s| <= e + 1
    ensures e < 16 ==> !Bit(init[e], b)
  {
    assert SomeFits(lits, buckets[b], e + 1);
  }
}
