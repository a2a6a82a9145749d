/** Filling the FDR shift-or table. */
module FdrTable {
  import opened Common
  import opened Bits
  import opened Literals
  import opened FdrMasks
  import opened SubsetWalk
  import opened Ranges

  const NUM_BUCKETS: nat := 8
  const BUCKET_WIDTH: nat := 8
  const SCHEME_WIDTH: nat := 64
  const MASK_SIZE: nat := 8
  /** Width of the words the compiler computes in. */
  const WORD: nat := 32

  function SchemeBit(b: nat, pos: nat): (bit: nat)
    requires b < NUM_BUCKETS && pos < BUCKET_WIDTH
    ensures bit < SCHEME_WIDTH
  {
    pos * NUM_BUCKETS + b
  }

  lemma SchemeBitInjective(b: nat, pos: nat, b': nat, pos': nat)
    requires b < NUM_BUCKETS && pos < BUCKET_WIDTH && b' < NUM_BUCKETS && pos' < BUCKET_WIDTH
    requires SchemeBit(b, pos) == SchemeBit(b', pos')
    ensures b == b' && pos == pos'
  {
  }

  function Cleared(x: Byte, k: nat): (r: Byte)
    requires k < 8
    ensures forall j: nat :: j < 8 ==> (Bit(r, j) <==> Bit(x, j) && j != k)
  {
    AndBound(x, Not(Pow2(k), 8));
    assert forall j: nat :: j < 8 ==> (Bit(And(x, Not(Pow2(k), 8)), j) <==> Bit(x, j) && j != k) by {
      forall j: nat | j < 8 ensures Bit(And(x, Not(Pow2(k), 8)), j) <==> Bit(x, j) && j != k {
        BitAnd(x, Not(Pow2(k), 8), j);
        BitNot(Pow2(k), 8, j);
        BitPow2(k, j);
      }
    }
    And(x, Not(Pow2(k), 8))
  }

  lemma SlotUnique(i: nat, bit: nat, i': nat, bit': nat)
    requires bit < SCHEME_WIDTH && bit' < SCHEME_WIDTH
    ensures MASK_SIZE * i + bit / 8 == MASK_SIZE * i' + bit' / 8 && bit % 8 == bit' % 8 <==> i == i' && bit == bit'
  {
  }

  lemma ByteOfEntry(i: nat, q: nat)
    requires q < MASK_SIZE
    ensures (MASK_SIZE * i + q) % MASK_SIZE == q
  {
  }

  function AndByte(x: Byte, y: Byte): (r: Byte)
    ensures forall j: nat :: Bit(r, j) <==> Bit(x, j) && Bit(y, j)
  {
    AndBound(x, y);
    assert forall j: nat :: Bit(And(x, y), j) <==> Bit(x, j) && Bit(y, j) by {
      forall j: nat ensures Bit(And(x, y), j) <==> Bit(x, j) && Bit(y, j) { BitAnd(x, y, j); }
    }
    And(x, y)
  }

  /** The index that carries the mask outside dc and the subset b2 inside it. */
  function EntryIndex(mask: nat, dc: nat, b2: nat): nat {
    Or(And(mask, Not(dc, WORD)), b2)
  }

  /** The entries visited for one subset are exactly those agreeing with the mask whose don't-care part is that subset. */
  lemma EntryIndexExact(mask: nat, dc: nat, b2: nat, bits: nat, i: nat)
    requires ValidDomain(bits) && mask < Pow2(bits) && dc < Pow2(bits) && SubsetOf(b2, dc) && i < Pow2(bits)
    ensures i == EntryIndex(mask, dc, b2) <==> Agrees(i, mask, dc, bits) && And(i, dc) == b2
  {
    var val := EntryIndex(mask, dc, b2);
    forall k: nat ensures Bit(val, k) <==> (if Bit(dc, k) then Bit(b2, k) else Bit(mask, k)) {
      BitEntryIndex(mask, dc, b2, bits, k);
    }
    forall k: nat ensures Bit(And(i, dc), k) <==> Bit(i, k) && Bit(dc, k) { BitAnd(i, dc, k); }
    if i == val {
      forall k: nat ensures Bit(And(i, dc), k) == Bit(b2, k) {
        if Bit(b2, k) { SubsetBit(b2, dc, k); }
      }
      Extensional(And(i, dc), b2);
    }
    if Agrees(i, mask, dc, bits) && And(i, dc) == b2 {
      forall k: nat ensures Bit(i, k) == Bit(val, k) {
        if k >= bits {
          BitHigh(i, bits, k);
          BitHigh(mask, bits, k);
          BitHigh(dc, bits, k);
        }
      }
      Extensional(i, val);
    }
  }

  lemma BitEntryIndex(mask: nat, dc: nat, b2: nat, bits: nat, k: nat)
    requires ValidDomain(bits) && mask < Pow2(bits) && SubsetOf(b2, dc)
    ensures Bit(EntryIndex(mask, dc, b2), k) <==> if Bit(dc, k) then Bit(b2, k) else Bit(mask, k)
  {
    BitOr(And(mask, Not(dc, WORD)), b2, k);
    BitAnd(mask, Not(dc, WORD), k);
    BitNot(dc, WORD, k);
    if Bit(b2, k) { SubsetBit(b2, dc, k); }
    if k >= bits { BitHigh(mask, bits, k); }
  }

  lemma EntryIndexBound(mask: nat, dc: nat, b2: nat, bits: nat)
    requires ValidDomain(bits) && mask < Pow2(bits) && dc < Pow2(bits) && SubsetOf(b2, dc)
    ensures EntryIndex(mask, dc, b2) < Pow2(bits)
  {
    forall k: nat | k >= bits ensures !Bit(EntryIndex(mask, dc, b2), k) {
      BitEntryIndex(mask, dc, b2, bits, k);
      BitHigh(mask, bits, k);
      BitHigh(dc, bits, k);
    }
    BoundedByBits(EntryIndex(mask, dc, b2), bits);
  }

  /** Some mask of the set allows index i. */
  ghost predicate Covered(masks: set<nat>, dc: nat, bits: nat, i: nat) {
    exists m :: m in masks && Agrees(i, m, dc, bits)
  }

  /** Don't-care mask and mask have been recorded together. */
  ghost predicate Recorded(m2: map<nat, set<nat>>, dc: nat, mask: nat) {
    dc in m2 && mask in m2[dc]
  }

  /** Some literal of the list demands exactly these masks at pos. */
  ghost predicate Demanded(lits: seq<Literal>, ids: seq<nat>, bits: nat, pos: nat, dc: nat, mask: nat)
    requires ValidDomain(bits)
  {
    exists x :: x in ids && x < |lits| && DontCaresOf(lits[x], bits, pos) == dc && MaskOf(lits[x], bits, pos) == mask
  }

  /** Some literal of the list allows index i at pos. */
  ghost predicate Allowed(lits: seq<Literal>, ids: seq<nat>, bits: nat, pos: nat, i: nat)
    requires ValidDomain(bits)
  {
    exists x :: x in ids && x < |lits| && Compatible(lits[x], bits, pos, i)
  }

  class FdrCompiler {
    const bits: nat
    const lits: seq<Literal>
    const bucketToLits: seq<seq<nat>>
    const tab: array<Byte>

    ghost predicate Valid()
    {
      ValidDomain(bits) && tab.Length == MASK_SIZE * Pow2(bits)
    }

    /** Bit of table entry i. */
    ghost predicate IsSet(i: nat, bit: nat)
      requires Valid() && i < Pow2(bits) && bit < SCHEME_WIDTH
      reads tab
    {
      Bit(tab[MASK_SIZE * i + bit / 8], bit % 8)
    }

    constructor (bits: nat, lits: seq<Literal>, bucketToLits: seq<seq<nat>>)
      requires ValidDomain(bits)
      ensures Valid() && fresh(tab)
      ensures this.bits == bits && this.lits == lits && this.bucketToLits == bucketToLits
    {
      this.bits := bits;
      this.lits := lits;
      this.bucketToLits := bucketToLits;
      tab := new Byte[MASK_SIZE * Pow2(bits)];
    }

    method ClearBit(i: nat, bit: nat)
      requires Valid() && i < Pow2(bits) && bit < SCHEME_WIDTH
      modifies tab
      ensures forall i': nat, bit': nat :: i' < Pow2(bits) && bit' < SCHEME_WIDTH ==>
                (IsSet(i', bit') <==> old(IsSet(i', bit')) && !(i' == i && bit' == bit))
    {
      hide Cleared;
      var at := MASK_SIZE * i + bit / 8;
      tab[at] := Cleared(tab[at], bit % 8);
      forall i': nat, bit': nat | i' < Pow2(bits) && bit' < SCHEME_WIDTH
        ensures IsSet(i', bit') <==> old(IsSet(i', bit')) && !(i' == i && bit' == bit)
      {
        SlotUnique(i, bit, i', bit');
      }
    }

    /** Clear the entries of one subset of the don't-care bits, for every mask. */
    method ClearSubset(dc: nat, masks: set<nat>, b2: nat, bit: nat)
      requires Valid() && bit < SCHEME_WIDTH
      requires dc < Pow2(bits) && SubsetOf(b2, dc) && forall m :: m in masks ==> m < Pow2(bits)
      modifies tab
      ensures forall i: nat, bit': nat :: i < Pow2(bits) && bit' < SCHEME_WIDTH ==>
                (IsSet(i, bit') <==>
                 old(IsSet(i, bit')) && !(bit' == bit && Covered(masks, dc, bits, i) && And(i, dc) == b2))
    {
      hide Agrees, EntryIndex, SubsetOf, IsSet;
      var todo := masks;
      ghost var seen: set<nat> := {};
      while todo != {}
        invariant todo <= masks && seen == masks - todo
        invariant forall i: nat, bit': nat :: i < Pow2(bits) && bit' < SCHEME_WIDTH ==>
                    (IsSet(i, bit') <==>
                     old(IsSet(i, bit')) && !(bit' == bit && Covered(seen, dc, bits, i) && And(i, dc) == b2))
        decreases todo
      {
        var mask := AnyOf(todo);
        todo := todo - {mask};
        EntryIndexBound(mask, dc, b2, bits);
        ghost var seen0 := seen;
        seen := seen + {mask};
        forall i: nat | i < Pow2(bits)
          ensures Covered(seen, dc, bits, i) && And(i, dc) == b2 <==>
                  (Covered(seen0, dc, bits, i) && And(i, dc) == b2) || i == EntryIndex(mask, dc, b2)
        {
          EntryIndexExact(mask, dc, b2, bits, i);
          assert Agrees(i, mask, dc, bits) ==> Covered(seen, dc, bits, i);
        }
        ClearBit(EntryIndex(mask, dc, b2), bit);
      }
      assert seen == masks;
    }
  
    /** Walk the subsets of the don't-care bits and clear every entry that some mask allows. */
    method ClearEntries(dc: nat, masks: set<nat>, bit: nat)
      requires Valid() && bit < SCHEME_WIDTH
      requires dc < Pow2(bits) && forall m :: m in masks ==> m < Pow2(bits)
      modifies tab
      ensures forall i: nat, bit': nat :: i < Pow2(bits) && bit' < SCHEME_WIDTH ==>
                (IsSet(i, bit') <==> old(IsSet(i, bit')) && !(bit' == bit && Covered(masks, dc, bits, i)))
    {
      hide Next, SubsetOf, Cursor, Successor, Covered, IsSet;
      Pow2Increases(bits, WORD);
      ghost var b: nat := 0;
      CursorOfNone(dc, WORD);
      NextIsSuccessor(dc, 0, WORD);
      var v := Not(dc, WORD);
      var more := true;
      while more
        invariant SubsetOf(b, dc) && v == Cursor(dc, b, WORD) && v < Pow2(WORD)
        invariant forall i: nat, bit': nat :: i < Pow2(bits) && bit' < SCHEME_WIDTH ==>
                    (IsSet(i, bit') <==>
                     old(IsSet(i, bit')) && !(bit' == bit && Covered(masks, dc, bits, i) && (!more || And(i, dc) < b)))
        decreases more, dc - b
      {
        CursorSubset(dc, b, WORD);
        NextIsSuccessor(dc, b, WORD);
        SuccessorUp(dc, b);
        WrapsAtEnd(dc, b, WORD);
        var b2 := And(v, dc);
        ClearSubset(dc, masks, b2, bit);
        v := Next(dc, v, WORD);
        more := v != Not(dc, WORD);
        ghost var b' := Successor(dc, b);
        NextIsSuccessor(dc, b', WORD);
        forall i: nat | i < Pow2(bits) ensures And(i, dc) <= b <==> !more || And(i, dc) < b' {
          PartIsSubset(i, dc);
          AndBoundOf(And(i, dc), dc);
          if b < And(i, dc) { SuccessorLeast(dc, b, And(i, dc)); }
        }
        b := b';
      }
    }

    /** The masks that the literals of one bucket demand at pos; true if one of them allows every index. */
    method GetMultiEntriesAtPosition(vl: seq<nat>, pos: nat) returns (done: bool, m2: map<nat, set<nat>>)
      requires Valid() && forall x :: x in vl ==> x < |lits|
      ensures done ==> exists x :: x in vl && DontCaresOf(lits[x], bits, pos) == Ones(bits)
      ensures !done ==> forall dc, mask :: Recorded(m2, dc, mask) <==> Demanded(lits, vl, bits, pos, dc, mask)
      ensures forall dc :: dc in m2 ==> m2[dc] != {}
    {
      hide DontCaresOf, MaskOf;
      m2 := map[];
      done := false;
      for k := 0 to |vl|
        invariant forall dc, mask :: Recorded(m2, dc, mask) <==> Demanded(lits, vl[..k], bits, pos, dc, mask)
        invariant forall dc :: dc in m2 ==> m2[dc] != {}
      {
        assert vl[k] in vl;
        var lit := lits[vl[k]];
        var mask, dontCares := MaskOf(lit, bits, pos), DontCaresOf(lit, bits, pos);
        if dontCares == Ones(bits) {
          return true, m2;
        }
        ghost var before := m2;
        m2 := m2[dontCares := (if dontCares in m2 then m2[dontCares] else {}) + {mask}];
        assert vl[..k + 1] == vl[..k] + [vl[k]];
        forall dc, m ensures Recorded(m2, dc, m) <==> Demanded(lits, vl[..k + 1], bits, pos, dc, m) {
          assert Recorded(m2, dc, m) <==> Recorded(before, dc, m) || (dc == dontCares && m == mask);
          DemandedStep(lits, vl[..k], vl[k], bits, pos, dc, m);
        }
      }
      assert vl[..|vl|] == vl;
    }
  
    function LitsOf(b: nat): seq<nat> {
      if b < |bucketToLits| then bucketToLits[b] else []
    }

    /** Clear the bit of (b, pos) where the bucket's literals demand it; true if that is everywhere. */
    method FillPosition(b: nat, pos: nat) returns (everywhere: bool)
      requires Valid() && b < NUM_BUCKETS && pos < BUCKET_WIDTH
      requires forall x :: x in LitsOf(b) ==> x < |lits|
      modifies tab
      ensures everywhere ==> forall i: nat :: i < Pow2(bits) ==> Allowed(lits, LitsOf(b), bits, pos, i)
      ensures everywhere ==> forall i: nat, bit': nat :: i < Pow2(bits) && bit' < SCHEME_WIDTH ==>
                (IsSet(i, bit') <==> old(IsSet(i, bit')))
      ensures !everywhere ==> forall i: nat, bit': nat :: i < Pow2(bits) && bit' < SCHEME_WIDTH ==>
                (IsSet(i, bit') <==>
                 old(IsSet(i, bit')) && !(bit' == SchemeBit(b, pos) && Allowed(lits, LitsOf(b), bits, pos, i)))
    {
      hide DontCaresOf, MaskOf, Covered, IsSet, Allowed, Demanded, Recorded, SchemeBit, Ones;
      var vl := LitsOf(b);
      var bit := SchemeBit(b, pos);
      var m2;
      everywhere, m2 := GetMultiEntriesAtPosition(vl, pos);
      if everywhere {
        forall i: nat | i < Pow2(bits) ensures Allowed(lits, vl, bits, pos, i) {
          FullyOpenAllows(lits, vl, bits, pos, i);
        }
        return;
      }
      var todo := m2.Keys;
      ghost var seen: set<nat> := {};
      while todo != {}
        invariant todo <= m2.Keys && seen == m2.Keys - todo
        invariant forall i: nat, bit': nat :: i < Pow2(bits) && bit' < SCHEME_WIDTH ==>
                    (IsSet(i, bit') <==> old(IsSet(i, bit')) && !(bit' == bit && CoveredBy(m2, seen, bits, i)))
        decreases todo
      {
        var dc := AnyOf(todo);
        todo := todo - {dc};
        RecordedInDomain(lits, vl, bits, pos, m2, dc);
        ClearEntries(dc, m2[dc], bit);
        seen := seen + {dc};
      }
      assert seen == m2.Keys;
      forall i: nat | i < Pow2(bits) ensures CoveredBy(m2, seen, bits, i) <==> Allowed(lits, vl, bits, pos, i) {
        CoveredIsAllowed(lits, vl, bits, pos, m2, i);
      }
    }
  
    /** Every bit of every entry set. */
    method ResetTab()
      requires Valid()
      modifies tab
      ensures forall i: nat, bit: nat :: i < Pow2(bits) && bit < SCHEME_WIDTH ==> IsSet(i, bit)
    {
      for k := 0 to tab.Length
        invariant forall j :: 0 <= j < k ==> tab[j] == 0xff
      {
        tab[k] := 0xff;
      }
      forall i: nat, bit: nat | i < Pow2(bits) && bit < SCHEME_WIDTH ensures IsSet(i, bit) {
        assert Pow2(8) == 256;
        BitOnes(8, bit % 8);
      }
    }

    /** Put the default mask into every entry. */
    method AndDefault(dm: seq<Byte>)
      requires Valid() && |dm| == MASK_SIZE
      modifies tab
      ensures forall i: nat, bit: nat :: i < Pow2(bits) && bit < SCHEME_WIDTH ==>
                (IsSet(i, bit) <==> old(IsSet(i, bit)) && MaskBit(dm, bit))
    {
      hide AndByte, Bit, Pow2;
      for k := 0 to tab.Length
        invariant forall j :: 0 <= j < k ==> tab[j] == AndByte(old(tab[j]), dm[j % MASK_SIZE])
        invariant forall j :: k <= j < tab.Length ==> tab[j] == old(tab[j])
      {
        tab[k] := AndByte(tab[k], dm[k % MASK_SIZE]);
      }
      forall i: nat, bit: nat | i < Pow2(bits) && bit < SCHEME_WIDTH
        ensures IsSet(i, bit) <==> old(IsSet(i, bit)) && MaskBit(dm, bit)
      {
        var q := bit / 8;
        var j := MASK_SIZE * i + q;
        ByteOfEntry(i, q);
        assert j < tab.Length;
        assert tab[j] == AndByte(old(tab[j]), dm[j % MASK_SIZE]);
      }
    }

    /** The bit of (b, pos) will be set in entry i. */
    ghost predicate WillBeSet(dm: seq<Byte>, b: nat, pos: nat, i: nat)
      requires Valid() && |dm| == MASK_SIZE && b < NUM_BUCKETS && pos < BUCKET_WIDTH && i < Pow2(bits)
      reads tab
    {
      IsSet(i, SchemeBit(b, pos)) && MaskBit(dm, SchemeBit(b, pos))
    }

    /** The buckets below b, and b up to pos, have been dealt with. */
    ghost predicate FilledUpTo(dm: seq<Byte>, b: nat, pos: nat)
      requires Valid() && |dm| == MASK_SIZE
      reads tab
    {
      forall b': nat, pos': nat, i: nat :: b' < NUM_BUCKETS && pos' < BUCKET_WIDTH && i < Pow2(bits) ==>
        (WillBeSet(dm, b', pos', i) <==>
         !((b' < b || (b' == b && pos' < pos)) && Allowed(lits, LitsOf(b'), bits, pos', i)))
    }

    method FillOne(dm: seq<Byte>, b: nat, pos: nat) returns (dm': seq<Byte>)
      requires Valid() && |dm| == MASK_SIZE && b < NUM_BUCKETS && pos < BUCKET_WIDTH && FilledUpTo(dm, b, pos)
      requires forall x :: x in LitsOf(b) ==> x < |lits|
      modifies tab
      ensures |dm'| == MASK_SIZE && FilledUpTo(dm', b, pos + 1)
    {
      hide IsSet, Allowed, SchemeBit, LitsOf, MaskBit, ClearMaskBit;
      var everywhere := FillPosition(b, pos);
      dm' := if everywhere then ClearMaskBit(dm, SchemeBit(b, pos)) else dm;
      forall b': nat, pos': nat, i: nat | b' < NUM_BUCKETS && pos' < BUCKET_WIDTH && i < Pow2(bits)
        ensures WillBeSet(dm', b', pos', i)
           <==> !((b' < b || (b' == b && pos' < pos + 1)) && Allowed(lits, LitsOf(b'), bits, pos', i))
      {
        assert old(WillBeSet(dm, b', pos', i))
          <==> !((b' < b || (b' == b && pos' < pos)) && Allowed(lits, LitsOf(b'), bits, pos', i));
        if SchemeBit(b', pos') == SchemeBit(b, pos) { SchemeBitInjective(b', pos', b, pos); }
      }
    }

    /** Fill the table: the bit of (b, pos) is clear in entry i exactly when some literal of bucket b
        allows index i at pos. */
    method SetupTab()
      requires Valid()
      requires forall b, x :: 0 <= b < |bucketToLits| && x in bucketToLits[b] ==> x < |lits|
      modifies tab
      ensures TableExact(tab[..], lits, bucketToLits, bits)
    {
      hide IsSet, Allowed, SchemeBit, LitsOf, MaskBit, TableExact;
      ResetTab();
      var dm := FullMask();
      for b := 0 to NUM_BUCKETS
        invariant |dm| == MASK_SIZE && FilledUpTo(dm, b, 0)
      {
        assert forall x :: x in LitsOf(b) ==> x < |lits| by { LitsOfIn(this, b); }
        for pos := 0 to BUCKET_WIDTH
          invariant |dm| == MASK_SIZE && FilledUpTo(dm, b, pos)
        {
          dm := FillOne(dm, b, pos);
        }
      }
      assert FilledUpTo(dm, NUM_BUCKETS, 0);
      AndDefault(dm);
      ReadByBytes(this);
    }
  }

  /** Bit b of byte pos of entry i is clear exactly when some literal of bucket b allows index i at pos. */
  ghost predicate TableExact(tab: seq<Byte>, lits: seq<Literal>, buckets: seq<seq<nat>>, bits: nat) {
    && ValidDomain(bits) && |tab| == 8 * Pow2(bits)
    && forall b: nat, pos: nat, i: nat {:trigger BucketAllows(lits, buckets, bits, b, pos, i)} ::
         b < 8 && pos < 8 && i < Pow2(bits) ==>
           (Bit(tab[8 * i + pos], b) <==> !BucketAllows(lits, buckets, bits, b, pos, i))
  }

  /** A literal of bucket b allows index i at pos. */
  ghost predicate BucketAllows(lits: seq<Literal>, buckets: seq<seq<nat>>, bits: nat, b: nat, pos: nat, i: nat)
    requires ValidDomain(bits)
  {
    b < |buckets| && Allowed(lits, buckets[b], bits, pos, i)
  }

  lemma ReadByBytes(c: FdrCompiler)
    requires c.Valid()
    requires forall b: nat, pos: nat, i: nat :: b < NUM_BUCKETS && pos < BUCKET_WIDTH && i < Pow2(c.bits) ==>
               (c.IsSet(i, SchemeBit(b, pos)) <==> !Allowed(c.lits, c.LitsOf(b), c.bits, pos, i))
    ensures TableExact(c.tab[..], c.lits, c.bucketToLits, c.bits)
  {
    forall b: nat, pos: nat, i: nat | b < 8 && pos < 8 && i < Pow2(c.bits)
      ensures Bit(c.tab[..][8 * i + pos], b) <==> !BucketAllows(c.lits, c.bucketToLits, c.bits, b, pos, i)
    {
      ByteOfBit(b, pos);
      assert c.IsSet(i, SchemeBit(b, pos)) <==> Bit(c.tab[8 * i + pos], b);
    }
  }

  lemma ByteOfBit(b: nat, pos: nat)
    requires b < 8 && pos < 8
    ensures SchemeBit(b, pos) / 8 == pos && SchemeBit(b, pos) % 8 == b
  {
  }

  lemma LitsOfIn(c: FdrCompiler, b: nat)
    requires forall b, x :: 0 <= b < |c.bucketToLits| && x in c.bucketToLits[b] ==> x < |c.lits|
    ensures forall x :: x in c.LitsOf(b) ==> x < |c.lits|
  {
  }

  predicate MaskBit(dm: seq<Byte>, bit: nat)
    requires |dm| == MASK_SIZE && bit < SCHEME_WIDTH
  {
    Bit(dm[bit / 8], bit % 8)
  }

  function FullMask(): (dm: seq<Byte>)
    ensures |dm| == MASK_SIZE && forall bit: nat :: bit < SCHEME_WIDTH ==> MaskBit(dm, bit)
  {
    var dm: seq<Byte> := [0xff, 0xff, 0xff, 0xff, 0xff, 0xff, 0xff, 0xff];
    assert forall bit: nat :: bit < SCHEME_WIDTH ==> MaskBit(dm, bit) by {
      forall bit: nat | bit < SCHEME_WIDTH ensures MaskBit(dm, bit) {
        assert Pow2(8) == 256;
        BitOnes(8, bit % 8);
      }
    }
    dm
  }

  function ClearMaskBit(dm: seq<Byte>, bit: nat): (r: seq<Byte>)
    requires |dm| == MASK_SIZE && bit < SCHEME_WIDTH
    ensures |r| == MASK_SIZE
    ensures forall bit': nat :: bit' < SCHEME_WIDTH ==> (MaskBit(r, bit') <==> MaskBit(dm, bit') && bit' != bit)
  {
    dm[bit / 8 := Cleared(dm[bit / 8], bit % 8)]
  }

  /** Some recorded mask with its don't-care mask in dcs allows index i. */
  ghost predicate CoveredBy(m2: map<nat, set<nat>>, dcs: set<nat>, bits: nat, i: nat) {
    exists dc :: dc in dcs && dc in m2 && Covered(m2[dc], dc, bits, i)
  }

  lemma FullyOpenAllows(lits: seq<Literal>, ids: seq<nat>, bits: nat, pos: nat, i: nat)
    requires ValidDomain(bits) && forall x :: x in ids ==> x < |lits|
    requires exists x :: x in ids && DontCaresOf(lits[x], bits, pos) == Ones(bits)
    ensures Allowed(lits, ids, bits, pos, i)
  {
    hide DontCaresOf, MaskOf, Ones;
    var x :| x in ids && DontCaresOf(lits[x], bits, pos) == Ones(bits);
    forall k: nat | k < bits ensures Bit(Ones(bits), k) { BitOnes(bits, k); }
    CompatibleIsAgreement(lits[x], bits, pos, i);
  }

  lemma RecordedInDomain(lits: seq<Literal>, ids: seq<nat>, bits: nat, pos: nat, m2: map<nat, set<nat>>, dc: nat)
    requires ValidDomain(bits) && dc in m2
    requires forall dc, mask :: Recorded(m2, dc, mask) <==> Demanded(lits, ids, bits, pos, dc, mask)
    ensures m2[dc] != {} ==> dc < Pow2(bits)
    ensures forall m :: m in m2[dc] ==> m < Pow2(bits)
  {
    hide DontCaresOf, MaskOf;
    forall m | m in m2[dc] ensures m < Pow2(bits) && dc < Pow2(bits) {
      assert Recorded(m2, dc, m);
      var x :| x in ids && x < |lits| && DontCaresOf(lits[x], bits, pos) == dc && MaskOf(lits[x], bits, pos) == m;
      MasksInDomain(lits[x], bits, pos);
    }
  }

  lemma CoveredIsAllowed(lits: seq<Literal>, ids: seq<nat>, bits: nat, pos: nat, m2: map<nat, set<nat>>, i: nat)
    requires ValidDomain(bits)
    requires forall dc, mask :: Recorded(m2, dc, mask) <==> Demanded(lits, ids, bits, pos, dc, mask)
    ensures CoveredBy(m2, m2.Keys, bits, i) <==> Allowed(lits, ids, bits, pos, i)
  {
    hide DontCaresOf, MaskOf, Agrees, Compatible;
    if CoveredBy(m2, m2.Keys, bits, i) {
      var dc :| dc in m2 && Covered(m2[dc], dc, bits, i);
      var m :| m in m2[dc] && Agrees(i, m, dc, bits);
      assert Recorded(m2, dc, m);
      var x :| x in ids && x < |lits| && DontCaresOf(lits[x], bits, pos) == dc && MaskOf(lits[x], bits, pos) == m;
      CompatibleIsAgreement(lits[x], bits, pos, i);
    }
    if Allowed(lits, ids, bits, pos, i) {
      var x :| x in ids && x < |lits| && Compatible(lits[x], bits, pos, i);
      CompatibleIsAgreement(lits[x], bits, pos, i);
      var dc, m := DontCaresOf(lits[x], bits, pos), MaskOf(lits[x], bits, pos);
      assert Demanded(lits, ids, bits, pos, dc, m);
      assert Recorded(m2, dc, m);
      assert Covered(m2[dc], dc, bits, i);
    }
  }

  lemma DemandedStep(lits: seq<Literal>, ids: seq<nat>, x: nat, bits: nat, pos: nat, dc: nat, mask: nat)
    requires ValidDomain(bits) && x < |lits|
    ensures Demanded(lits, ids + [x], bits, pos, dc, mask) <==>
            Demanded(lits, ids, bits, pos, dc, mask) ||
            (dc == DontCaresOf(lits[x], bits, pos) && mask == MaskOf(lits[x], bits, pos))
  {
    hide DontCaresOf, MaskOf;
    if Demanded(lits, ids, bits, pos, dc, mask) {
      var y :| y in ids && y < |lits| && DontCaresOf(lits[y], bits, pos) == dc && MaskOf(lits[y], bits, pos) == mask;
      assert y in ids + [x];
    }
    assert x in ids + [x];
  }

  lemma PartIsSubset(i: nat, dc: nat)
    ensures SubsetOf(And(i, dc), dc)
  {
    forall k: nat | Bit(And(i, dc), k) ensures Bit(dc, k) { BitAnd(i, dc, k); }
    SubsetByBits(And(i, dc), dc);
  }

  lemma MasksInDomain(lit: Literal, bits: nat, pos: nat)
    requires ValidDomain(bits)
    ensures MaskOf(lit, bits, pos) < Pow2(bits) && DontCaresOf(lit, bits, pos) < Pow2(bits)
  {
    hide MaskByte, DontCareByte, Or, And, Pow2;
    AndBound(Or(MaskByte(lit, bits, pos, 0), MaskByte(lit, bits, pos, 1) * Pow2(8)), Ones(bits));
    AndBound(Or(DontCareByte(lit, bits, pos, 0), DontCareByte(lit, bits, pos, 1) * Pow2(8)), Ones(bits));
  }

  /** The literal occurs in the text with its last character at e. */
  ghost predicate OccursAt(lit: Literal, text: seq<Byte>, e: nat)
    requires e < |text|
  {
    forall p: nat :: p < |lit.s| && p <= e ==> AcceptedAt(lit, text, e, p)
  }

  /** The character p places before the literal's end accepts the text byte p places before e. */
  predicate AcceptedAt(lit: Literal, text: seq<Byte>, e: nat, p: nat)
    requires p <= e < |text| && p < |lit.s|
  {
    Accepts(lit, lit.s[|lit.s| - 1 - p], text[e - p])
  }

  /** The index that the matcher looks up at text position p: two bytes, cut to the domain. */
  function WindowIndex(text: seq<Byte>, p: nat, bits: nat): nat
    requires p + 1 < |text|
  {
    And((text[p + 1] as int) * 256 + text[p], Ones(bits))
  }

  lemma WindowByte(text: seq<Byte>, p: nat, bits: nat, cnt: nat)
    requires ValidDomain(bits) && p + 1 < |text| && cnt < 2
    ensures SameLow(ByteOf(WindowIndex(text, p, bits), cnt), text[p + cnt], Kept(bits, cnt))
  {
    var x: nat := (text[p + 1] as int) * 256 + text[p];
    assert Pow2(8) == 256;
    forall k: nat | k < Kept(bits, cnt) ensures Bit(ByteOf(WindowIndex(text, p, bits), cnt), k) == Bit(text[p + cnt], k) {
      BitByteOf(WindowIndex(text, p, bits), cnt, k);
      BitAnd(x, Ones(bits), k + 8 * cnt);
      BitOnes(bits, k + 8 * cnt);
      BitJoin(text[p + 1], text[p], 8, k + 8 * cnt);
    }
  }

  /** No literal is missed: wherever one of the bucket's literals occurs, the index read at each position
      before its end is one that the table allows there. */
  lemma NoMissedLiteral(lits: seq<Literal>, ids: seq<nat>, x: nat, bits: nat, pos: nat, text: seq<Byte>, e: nat)
    requires ValidDomain(bits) && x in ids && x < |lits|
    requires pos <= e && e + 1 < |text| && OccursAt(lits[x], text, e)
    ensures Allowed(lits, ids, bits, pos, WindowIndex(text, e - pos, bits))
  {
    hide WindowIndex, SameLow;
    var lit, i := lits[x], WindowIndex(text, e - pos, bits);
    forall cnt | 0 <= cnt < 2 ensures Fits(lit, bits, pos, i, cnt) {
      WindowByte(text, e - pos, bits, cnt);
      if !Outside(lit, pos, cnt) {
        var p := pos - cnt;
        assert AcceptedAt(lit, text, e, p);
        assert text[e - p] == text[e - pos + cnt];
      }
    }
    assert Fits(lit, bits, pos, i, 0) && Fits(lit, bits, pos, i, 1);
    assert Compatible(lit, bits, pos, i);
  }

  /** The literal ends at e of the text, and index i is what is read pos bytes before. */
  ghost predicate ReadWith(lit: Literal, bits: nat, pos: nat, i: nat, text: seq<Byte>, e: nat) {
    && pos <= e && |lit.s| <= e + 1 && e + 1 < |text|
    && OccursAt(lit, text, e) && WindowIndex(text, e - pos, bits) == i
  }

  /** And none is allowed in vain: a literal allows exactly the indices that are read somewhere it occurs. */
  lemma CompatibleIffRead(lit: Literal, bits: nat, pos: nat, i: nat)
    requires ValidDomain(bits) && i < Pow2(bits)
    ensures Compatible(lit, bits, pos, i) <==> exists text: seq<Byte>, e: nat :: ReadWith(lit, bits, pos, i, text, e)
  {
    hide OccursAt, WindowIndex, Fits, Pow2;
    if Compatible(lit, bits, pos, i) {
      var y0 := ByteToRead(lit, bits, pos, i, 0);
      var y1 := ByteToRead(lit, bits, pos, i, 1);
      var e := pos + |lit.s|;
      var text := TextAround(lit, pos, y0, y1);
      OccursAround(lit, pos, y0, y1);
      IndexRead(text, e - pos, bits, i);
      assert ReadWith(lit, bits, pos, i, text, e);
    }
    if text: seq<Byte>, e: nat :| ReadWith(lit, bits, pos, i, text, e) {
      NoMissedLiteral([lit], [0], 0, bits, pos, text, e);
    }
  }

  /** A byte the literal accepts, if it has a say, that gives byte number cnt of the index. */
  lemma ByteToRead(lit: Literal, bits: nat, pos: nat, i: nat, cnt: nat) returns (y: Byte)
    requires ValidDomain(bits) && i < Pow2(bits) && cnt < 2 && Fits(lit, bits, pos, i, cnt)
    ensures SameLow(ByteOf(i, cnt), y, Kept(bits, cnt))
    ensures !(pos < cnt || pos - cnt >= |lit.s|) ==> Accepts(lit, lit.s[|lit.s| - 1 - (pos - cnt)], y)
  {
    if Outside(lit, pos, cnt) {
      assert ByteOf(i, cnt) < 256 by {
        Pow2Increases(bits, 15);
        assert Pow2(15) == 0x8000;
      }
      y := ByteOf(i, cnt);
    } else {
      y :| Accepts(lit, CharAt(lit, pos, cnt), y) && SameLow(ByteOf(i, cnt), y, Kept(bits, cnt));
    }
  }

  /** The literal ending at pos + |lit.s|, with the two bytes read put in. */
  function TextAround(lit: Literal, pos: nat, y0: Byte, y1: Byte): seq<Byte> {
    var n := |lit.s|;
    seq(pos + n + 2, q requires 0 <= q < pos + n + 2 =>
      if q == n then y0 else if q == n + 1 then y1 else if pos < q <= pos + n then lit.s[q - pos - 1] else 0)
  }

  lemma OccursAround(lit: Literal, pos: nat, y0: Byte, y1: Byte)
    requires pos < |lit.s| ==> Accepts(lit, lit.s[|lit.s| - 1 - pos], y0)
    requires 1 <= pos <= |lit.s| ==> Accepts(lit, lit.s[|lit.s| - pos], y1)
    ensures OccursAt(lit, TextAround(lit, pos, y0, y1), pos + |lit.s|)
  {
  }

  /** Two text bytes that agree with an index in the bits kept are read as that index. */
  lemma IndexRead(text: seq<Byte>, p: nat, bits: nat, i: nat)
    requires ValidDomain(bits) && i < Pow2(bits) && p + 1 < |text|
    requires SameLow(ByteOf(i, 0), text[p], Kept(bits, 0)) && SameLow(ByteOf(i, 1), text[p + 1], Kept(bits, 1))
    ensures WindowIndex(text, p, bits) == i
  {
    hide WindowIndex, Pow2, ByteOf;
    var j := WindowIndex(text, p, bits);
    WindowByte(text, p, bits, 0);
    WindowByte(text, p, bits, 1);
    WindowSmall(text, p, bits);
    forall k: nat
      ensures Bit(i, k) == Bit(j, k)
    {
      if k >= bits {
        BitHigh(i, bits, k);
        BitHigh(j, bits, k);
      } else {
        var cnt := if k < 8 then 0 else 1;
        BitByteOf(i, cnt, k - 8 * cnt);
        BitByteOf(j, cnt, k - 8 * cnt);
      }
    }
    Extensional(i, j);
  }

  lemma WindowSmall(text: seq<Byte>, p: nat, bits: nat)
    requires p + 1 < |text|
    ensures WindowIndex(text, p, bits) < Pow2(bits)
  {
    var x: nat := (text[p + 1] as int) * 256 + text[p];
    forall k: nat | k >= bits
      ensures !Bit(WindowIndex(text, p, bits), k)
    {
      BitAnd(x, Ones(bits), k);
      BitOnes(bits, k);
    }
    BoundedByBits(WindowIndex(text, p, bits), bits);
  }
}
