/** Compressed streams cut short: a form that is not refused whatever follows has a continuation that is accepted. */
module StreamCuts {
  import opened Common
  import Bits
  import opened Multibit
  import opened MultibitCodec
  import opened StreamPlan
  import opened StreamCodec
  import opened DatabaseFormat

  /** How many bytes of a multibit decide that no key is on. */
  function Head(item: Item): nat
    requires item.Multi?
  {
    if IsFlat(item.total) then FlatSize(item.total) else BLOCK
  }

  ghost predicate Zero(m: seq<Byte>, p: nat, n: nat) {
    p + n <= |m| && forall i: nat :: p <= i < p + n ==> m[i] == 0
  }

  function Zeroes(n: nat): (r: seq<Byte>)
    ensures |r| == n && forall i :: 0 <= i < n ==> r[i] == 0
  {
    seq(n, _ => 0)
  }

  /** The bytes of the item are the same in both. */
  ghost predicate SameRange(m: seq<Byte>, b: seq<Byte>, p: nat, end: nat) {
    |m| == |b| && forall i: nat :: p <= i < end && i < |m| ==> m[i] == b[i]
  }

  /** An item whose region is the same is the same item. */
  lemma SameItemInBoth(m: seq<Byte>, b: seq<Byte>, a: Item)
    requires a.In(m) && SameRange(m, b, a.at, a.End())
    ensures a.Restored(b, m) && a.In(b) && a.Image(b) == a.Image(m)
  {
    if a.Raw? {
      assert b[a.at..a.at + a.len] == m[a.at..a.at + a.len];
    } else if IsFlat(a.total) {
      var n := FlatSize(a.total);
      assert b[a.at..a.at + n] == m[a.at..a.at + n];
    } else {
      SamePyramid(m, b, a.at, a.total, a.size);
    }
  }

  lemma SamePyramid(m: seq<Byte>, b: seq<Byte>, at: nat, total: nat, size: nat)
    requires !IsFlat(total) && Fits(m, at, total, size) && SameRange(m, b, at, at + size)
    ensures MultibitCodec.Restored(b, m, at, total) && Fits(b, at, total, size)
    ensures MultibitCodec.Image(b, at, total) == MultibitCodec.Image(m, at, total)
  {
    hide Pyramid.InUse, Pyramid.Image, MaxLevel;
    var q, p := PyramidOf(m, at, total), PyramidOf(b, at, total);
    forall n | n in q.InUse()
      ensures q.Block(n.level, n.key) == p.Block(n.level, n.key)
    {
      var o := Place(at, n);
      assert m[o..o + BLOCK] == b[o..o + BLOCK];
    }
    AgreeMeansSame(q, p);
  }

  lemma ZeroByte(b: nat)
    ensures !Bits.Bit(0, b)
  {
    Bits.BitOfZero(b);
  }

  ghost predicate NoKeys(m: seq<Byte>, at: nat, total: nat) {
    forall k: nat :: !KeyOn(m, at, total, k)
  }

  /** A multibit whose head is zero has no key on, is accepted unchecked, and fits. */
  lemma ZeroHead(m: seq<Byte>, item: Item)
    requires item.Multi? && Zero(m, item.at, Head(item)) && Head(item) <= item.size && item.at + item.size <= |m|
    ensures item.In(m) && !item.Checked(m) && NoKeys(m, item.at, item.total) && |item.Image(m)| == Head(item)
  {
    hide NoKeys, Fits, Unchecked, MultibitCodec.Image, Zero;
    if IsFlat(item.total) {
      ZeroFlat(m, item.at, item.total, item.size);
    } else {
      ZeroPyramid(m, item.at, item.total, item.size);
    }
  }

  lemma ZeroFlat(m: seq<Byte>, at: nat, total: nat, size: nat)
    requires IsFlat(total) && Zero(m, at, FlatSize(total)) && FlatSize(total) <= size && at + size <= |m|
    ensures Fits(m, at, total, size) && Unchecked(m, at, total) && NoKeys(m, at, total)
    ensures |MultibitCodec.Image(m, at, total)| == FlatSize(total)
  {
    forall k: nat
      ensures !KeyOn(m, at, total, k)
    {
      ZeroByte(k % 8);
    }
  }

  lemma ZeroPyramid(m: seq<Byte>, at: nat, total: nat, size: nat)
    requires !IsFlat(total) && Zero(m, at, BLOCK) && BLOCK <= size && at + size <= |m|
    ensures Fits(m, at, total, size) && Unchecked(m, at, total) && NoKeys(m, at, total)
    ensures |MultibitCodec.Image(m, at, total)| == BLOCK
  {
    hide IsClear, Pyramid.Inside, Pyramid.Image, Pyramid.InUse, NoKeys, Zero, MaxLevel;
    ZeroIsClear(m, at, total);
    ClearIsRoot(PyramidOf(m, at, total), size);
    RootHasNoKeys(m, at, total);
  }

  lemma ZeroIsClear(m: seq<Byte>, at: nat, total: nat)
    requires Zero(m, at, BLOCK)
    ensures IsClear(PyramidOf(m, at, total))
  {
    hide NextSet, Pyramid.Block;
    RootIsZero(m, at, total);
  }

  /** Nothing but the root is in use. */
  ghost predicate RootOnly(p: Pyramid, size: nat) {
    p.InUse() == {Node(0, 0)} && p.Inside(size) && |p.Image()| == BLOCK
  }

  lemma ClearIsRoot(p: Pyramid, size: nat)
    requires IsClear(p) && BLOCK <= size && p.at + size <= |p.m|
    ensures RootOnly(p, size)
  {
    hide NextSet, Pyramid.Block, Pyramid.Inside, Pyramid.InUse, Pyramid.Image;
    OnlyRoot(p);
    RootInside(p, size);
    ClearImage(p);
  }

  lemma RootInside(p: Pyramid, size: nat)
    requires p.InUse() == {Node(0, 0)} && BLOCK <= size && p.at + size <= |p.m|
    ensures p.Inside(size)
  {
    hide Pyramid.InUse;
    assert Multibit.Index(Node(0, 0)) == 0;
  }

  lemma RootHasNoKeys(m: seq<Byte>, at: nat, total: nat)
    requires !IsFlat(total) && PyramidOf(m, at, total).InUse() == {Node(0, 0)}
    ensures NoKeys(m, at, total)
  {
    hide Pyramid.InUse, Pyramid.Block, IsSet, MaxLevel;
    Deep(total);
  }

  lemma ClearImage(p: Pyramid)
    requires NextSet(p.Block(0, 0), 0) == 64
    ensures |p.Image()| == BLOCK
  {
    hide Pyramid.Block, NextSet, Pyramid.Rest, Pyramid.RestNodes, Pyramid.Image;
    StartImage(p);
    p.Up(0, 0, 0);
  }

  lemma Deep(total: nat)
    requires !IsFlat(total)
    ensures MaxLevel(total) > 0
  {
  }

  lemma OnlyRoot(p: Pyramid)
    requires NextSet(p.Block(0, 0), 0) == 64
    ensures p.InUse() == {Node(0, 0)}
  {
    hide Pyramid.Block, NextSet;
    p.NextChild(0, 0, 0);
  }

  lemma RootIsZero(m: seq<Byte>, at: nat, total: nat)
    requires Zero(m, at, BLOCK)
    ensures NextSet(PyramidOf(m, at, total).Block(0, 0), 0) == 64
    ensures Multibit.Index(Node(0, 0)) == 0
  {
    var block := PyramidOf(m, at, total).Block(0, 0);
    assert block == m[at..at + BLOCK];
    forall b: nat | b < 64
      ensures !IsSet(block, b)
    {
      ZeroByte(b % 8);
    }
    NoneSet(block);
  }

  lemma NoneSet(block: seq<Byte>)
    requires |block| == BLOCK && forall b: nat :: b < 64 ==> !IsSet(block, b)
    ensures NextSet(block, 0) == 64
  {
  }

  /** The head of a multibit set to zero, but for its first bytes. */
  function Wiped(m: seq<Byte>, item: Item, keep: nat): (b: seq<Byte>)
    requires item.Multi? && keep <= Head(item) && item.at + Head(item) <= |m|
    ensures |b| == |m|
  {
    Put(m, item.at + keep, Zeroes(Head(item) - keep))
  }

  lemma WipeOne(m: seq<Byte>, item: Item, keep: nat)
    requires item.Multi? && keep <= Head(item) <= item.size && item.at + item.size <= |m|
    ensures SameOutside(m, Wiped(m, item, keep), item.at, item.End() - item.at)
    ensures Zero(Wiped(m, item, keep), item.at + keep, Head(item) - keep)
    ensures SameRange(m, Wiped(m, item, keep), item.at, item.at + keep)
  {
  }

  lemma HeadFits(m: seq<Byte>, item: Item)
    requires item.Multi? && item.In(m)
    ensures Head(item) <= item.size && item.at + item.size <= |m|
  {
  }

  ghost predicate AllMulti(items: seq<Item>) {
    forall i :: 0 <= i < |items| ==> items[i].Multi?
  }

  ghost predicate AllZero(m: seq<Byte>, items: seq<Item>) {
    forall i :: 0 <= i < |items| ==> items[i].Multi? && Zero(m, items[i].at, Head(items[i]))
  }

  lemma ZeroStays(m: seq<Byte>, b: seq<Byte>, a: Item, item: Item)
    requires a.Multi? && Zero(m, a.at, Head(a)) && Head(a) <= a.size && Apart(a, item)
    requires SameOutside(m, b, item.at, item.End() - item.at)
    ensures Zero(b, a.at, Head(a))
  {
  }

  lemma {:induction false} WipeAll(m: seq<Byte>, items: seq<Item>) returns (b: seq<Byte>)
    requires AllMulti(items) && AllIn(m, items) && AllApart(items)
    ensures UntouchedElsewhere(m, b, items) && AllZero(b, items)
    decreases |items|
  {
    hide Wiped, UntouchedElsewhere, SameOutside, Zero, Fits;
    if items == [] {
      b := m;
      NoneTouched(m);
    } else {
      var init, last := items[..|items| - 1], items[|items| - 1];
      assert init + [last] == items;
      var b0 := WipeAll(m, init);
      HeadFits(m, last);
      SameLength(m, b0, init);
      WipeOne(b0, last, 0);
      b := Wiped(b0, last, 0);
      StillUntouched(m, b0, b, init, last);
      forall i | 0 <= i < |init|
        ensures Zero(b, items[i].at, Head(items[i]))
      {
        assert items[i] == init[i];
        HeadFits(m, items[i]);
        ZeroStays(b0, b, items[i], last);
      }
    }
  }

  lemma SameLength(m: seq<Byte>, b: seq<Byte>, items: seq<Item>)
    requires UntouchedElsewhere(m, b, items)
    ensures |m| == |b|
  {
  }

  /** A region apart from all changed ones is the same. */
  lemma RegionKept(m: seq<Byte>, b: seq<Byte>, items: seq<Item>, a: Item)
    requires UntouchedElsewhere(m, b, items) && forall i :: 0 <= i < |items| ==> Apart(a, items[i])
    ensures SameRange(m, b, a.at, a.End())
  {
    forall p: nat | a.at <= p < a.End() && p < |m|
      ensures m[p] == b[p]
    {
      assert Outside(p, items);
    }
  }

  lemma RangeThrough(m: seq<Byte>, b0: seq<Byte>, b: seq<Byte>, a: Item, item: Item)
    requires SameRange(m, b0, a.at, a.End()) && SameOutside(b0, b, item.at, item.End() - item.at) && Apart(a, item)
    ensures SameRange(m, b, a.at, a.End())
  {
  }

  // The continuation --------------------------------------------------------------------------------------------

  lemma {:induction false} SameImages(m: seq<Byte>, b: seq<Byte>, items: seq<Item>)
    requires forall i :: 0 <= i < |items| ==> items[i].Image(b) == items[i].Image(m)
    ensures Images(b, items) == Images(m, items)
  {
    hide Item.Image;
    if items != [] {
      SameImages(m, b, items[..|items| - 1]);
    }
  }

  lemma {:induction false} SameKeyParts(l: Layout, w: Walk, m: seq<Byte>, b: seq<Byte>, k: nat)
    requires l.Shaped() && (w.SomSlots? ==> l.som.Some?) && StreamPlan.Index(l, w).Restored(b, m)
    ensures KeyParts(l, w, b, k) == KeyParts(l, w, m, k)
    decreases StreamPlan.Index(l, w).total - k
  {
    hide KeyOn, MultibitCodec.Restored, Layout.Shaped, Parts;
    if k < StreamPlan.Index(l, w).total {
      RestoredKeys(b, m, StreamPlan.Index(l, w).at, StreamPlan.Index(l, w).total, k);
      SameKeyParts(l, w, m, b, k + 1);
    }
  }

  /** With the index sets the same and no slot valid, the plan ends with the start-of-match multibits. */
  lemma SamePlan(l: Layout, offset: nat, m: seq<Byte>, b: seq<Byte>)
    requires l.Shaped() && l.leaf.Restored(b, m) && l.left.Restored(b, m)
    requires l.som.Some? ==> NoKeys(b, l.som.value.valid.at, l.som.value.valid.total)
    ensures Plan(l, offset, b) == Stage(l, offset, m, 5)
  {
    hide KeyParts, Front, Middle, Item.Restored, Layout.Shaped;
    assert l.leaf == StreamPlan.Index(l, Endfixes) && l.left == StreamPlan.Index(l, Leftfixes);
    SameKeyParts(l, Endfixes, m, b, 0);
    SameKeyParts(l, Leftfixes, m, b, 0);
    if l.som.Some? {
      NoSlots(l, b);
    }
  }

  lemma NoSlots(l: Layout, b: seq<Byte>)
    requires l.Shaped() && l.som.Some? && NoKeys(b, l.som.value.valid.at, l.som.value.valid.total)
    ensures KeyParts(l, SomSlots, b, 0) == []
  {
    hide KeyOn, KeyParts, Layout.Shaped;
    forall k: nat
      ensures !Visits(l, SomSlots, b, k)
    {
    }
    NoParts(l, SomSlots, b, 0);
  }

  /** What the cut item becomes: unchecked, and with the same first bytes. */
  ghost predicate Softened(m: seq<Byte>, b: seq<Byte>, item: Item, bytes: nat) {
    && item.In(b) && !item.Checked(b) && bytes < |item.Image(b)| && bytes <= |item.Image(m)|
    && item.Image(b)[..bytes] == item.Image(m)[..bytes]
  }

  lemma SoftenFlat(m: seq<Byte>, b: seq<Byte>, item: Item, bytes: nat)
    requires item.Multi? && IsFlat(item.total) && item.In(m) && |b| == |m| && bytes < FlatSize(item.total)
    requires SameRange(m, b, item.at, item.at + bytes) && Zero(b, item.at + bytes, FlatSize(item.total) - bytes)
    ensures Softened(m, b, item, bytes)
    ensures !KnownKey(m, item, bytes) ==> NoKeys(b, item.at, item.total)
  {
    var n := FlatSize(item.total);
    assert b[item.at..item.at + n][..bytes] == m[item.at..item.at + n][..bytes];
    if !KnownKey(m, item, bytes) {
      forall k: nat
        ensures !KeyOn(b, item.at, item.total, k)
      {
        if k < item.total {
          assert b[item.at..][k / 8] == b[item.at + k / 8];
          if k / 8 < bytes {
            assert m[item.at..][k / 8] == m[item.at + k / 8];
            assert !KeyOn(m, item.at, item.total, k);
          } else {
            ZeroByte(k % 8);
          }
        }
      }
    }
  }

  lemma ByteIsZero(x: Byte)
    requires forall b: nat :: b < 8 ==> !Bits.Bit(x, b)
    ensures x == 0
  {
    assert Bits.Pow2(8) == 256;
    forall k: nat
      ensures Bits.Bit(x, k) == Bits.Bit(0, k)
    {
      Bits.BitOfZero(k);
      if k >= 8 {
        Bits.BitHigh(x, 8, k);
      }
    }
    Bits.Extensional(x, 0);
  }

  /** Known bytes of a root without a bit are zero, and the root is not known in whole. */
  lemma KnownRootBytes(m: seq<Byte>, at: nat, total: nat, size: nat, bytes: nat)
    requires !IsFlat(total) && Fits(m, at, total, size) && ClearBefore(PyramidOf(m, at, total), bytes)
    requires bytes < |MultibitCodec.Image(m, at, total)|
    ensures bytes < BLOCK
    ensures MultibitCodec.Image(m, at, total)[..bytes] == Zeroes(bytes)
  {
    hide NextSet, Pyramid.Rest, Pyramid.RestNodes, Pyramid.Image, Pyramid.Block;
    var p := PyramidOf(m, at, total);
    var root := p.Block(0, 0);
    StartImage(p);
    assert p.Image()[..BLOCK] == root;
    if bytes >= BLOCK {
      NoneSet(root);
      ClearImage(p);
    }
    forall i: nat | i < bytes && i < BLOCK
      ensures root[i] == 0
    {
      forall b: nat | b < 8
        ensures !Bits.Bit(root[i], b)
      {
        assert !IsSet(root, 8 * i + b);
      }
      ByteIsZero(root[i]);
    }
  }

  lemma SoftenPyramid(m: seq<Byte>, b: seq<Byte>, item: Item, bytes: nat)
    requires item.Multi? && !IsFlat(item.total) && item.In(m) && |b| == |m| && bytes < |item.Image(m)|
    requires Zero(b, item.at, BLOCK) && !KnownRootBit(m, item, bytes)
    ensures Softened(m, b, item, bytes) && NoKeys(b, item.at, item.total)
  {
    hide NoKeys, Fits, Unchecked, MultibitCodec.Image, ClearBefore;
    HeadFits(m, item);
    ZeroHead(b, item);
    KnownRootBytes(m, item.at, item.total, item.size, bytes);
    HeadFits(b, item);
    ZeroClear(b, item);
    KnownRootBytes(b, item.at, item.total, item.size, bytes);
  }

  lemma ZeroClear(b: seq<Byte>, item: Item)
    requires item.Multi? && !IsFlat(item.total) && Zero(b, item.at, BLOCK)
    ensures forall n :: ClearBefore(PyramidOf(b, item.at, item.total), n)
  {
    hide NextSet;
    RootIsZero(b, item.at, item.total);
  }

  lemma {:induction false} CutExists(m: seq<Byte>, items: seq<Item>, n: nat) returns (c: nat)
    requires 8 <= n < 8 + |Images(m, items)|
    ensures CutAt(m, items, n, c)
    decreases |items|
  {
    hide Item.Image;
    var last := |items| - 1;
    assert items[..last + 1] == items;
    if StartOf(m, items, last) <= n {
      c := last;
    } else {
      c := CutExists(m, items[..last], n);
      SameCut(m, items[..last], items, n, c);
    }
  }

  /** The parts with a fixed place in every plan. */
  lemma FixedPlaces(l: Layout, offset: nat, m: seq<Byte>)
    requires l.Shaped()
    ensures var g, g4, plan := Stage(l, offset, m, 5), Stage(l, offset, m, 4), Plan(l, offset, m);
            && g4 <= g <= plan && |g4| > 4 && g[2] == l.leaf && g[3] == l.left && g[4] == l.longLit && l.longLit.Raw?
            && AllMulti(g[|g4|..]) && (l.som.Some? ==> g[|g| - 1] == l.som.value.valid)
  {
    hide KeyParts, Middle, Nfas, Lefts, Slots;
    var g, g4 := Stage(l, offset, m, 5), Stage(l, offset, m, 4);
    assert g[|g4|..] == SomBits(l);
  }

  /** Only multibits lie between a cut that is not refused and the slots; the engine index sets lie before it. */
  ghost predicate Soft(l: Layout, offset: nat, m: seq<Byte>, n: nat, c: nat)
    requires l.Shaped()
  {
    var g, plan := Stage(l, offset, m, 5), Plan(l, offset, m);
    && 4 < c < |g| && g <= plan && AllMulti(g[c..]) && g[2] == l.leaf && g[3] == l.left
    && (l.som.Some? ==> g[|g| - 1] == l.som.value.valid)
    && CutAt(m, plan, n, c) && !KnownRootBit(m, plan[c], n - StartOf(m, plan, c))
    && (l.som.Some? && c + 1 == |g| ==> !KnownKey(m, plan[c], n - StartOf(m, plan, c)))
  }

  lemma SoftTail(l: Layout, offset: nat, m: seq<Byte>, n: nat, c: nat)
    requires l.Shaped() && CutAt(m, Plan(l, offset, m), n, c) && !RefusedAt(l, offset, m, n, c)
    ensures Soft(l, offset, m, n, c)
  {
    hide Images, KnownKey, KnownRootBit, Stage, Plan, Layout.Shaped;
    var g, g4, plan := Stage(l, offset, m, 5), Stage(l, offset, m, 4), Plan(l, offset, m);
    FixedPlaces(l, offset, m);
    assert forall i :: 0 <= i < |g| ==> g[i] == plan[i];
    if c >= |g| {
      SlotIsRaw(l, offset, m, c);
    }
    forall i | c <= i < |g|
      ensures g[i].Multi?
    {
      if i >= |g4| {
        assert g[i] == g[|g4|..][i - |g4|];
      }
    }
    assert forall i :: 0 <= i < |g[c..]| ==> g[c..][i] == g[c + i];
  }

  lemma SlotIsRaw(l: Layout, offset: nat, m: seq<Byte>, i: nat)
    requires l.Shaped() && |Stage(l, offset, m, 5)| <= i < |Plan(l, offset, m)|
    ensures Plan(l, offset, m)[i].Raw?
  {
    hide KeyParts, Middle, Front, Layout.Shaped;
    SlotsRaw(l, m, 0);
    assert Plan(l, offset, m) == Stage(l, offset, m, 5) + Slots(l, m);
  }

  lemma {:induction false} SlotsRaw(l: Layout, m: seq<Byte>, k: nat)
    requires l.Shaped()
    ensures l.som.Some? ==> AllRaw(KeyParts(l, SomSlots, m, k))
    decreases if l.som.Some? then StreamPlan.Index(l, SomSlots).total - k else 0
  {
    hide Visits;
    if l.som.Some? && k < StreamPlan.Index(l, SomSlots).total {
      SlotsRaw(l, m, k + 1);
      RawParts(l, SomSlots, k);
    }
  }

  /** The stream with everything from the cut on blanked: the items before the cut are the same, the cut one keeps its
      known bytes, and no later one has a key on. */
  ghost predicate Blanked(m: seq<Byte>, b: seq<Byte>, items: seq<Item>, c: nat, bytes: nat) {
    && |m| == |b| && c < |items|
    && (forall i :: 0 <= i < c ==> items[i].Restored(b, m) && items[i].In(b) && items[i].Image(b) == items[i].Image(m))
    && Softened(m, b, items[c], bytes)
    && (forall i :: c < i < |items| ==> items[i].In(b) && !items[i].Checked(b))
  }

  /** And no slot is valid. */
  ghost predicate NoneOn(b: seq<Byte>, item: Item) {
    item.Multi? && NoKeys(b, item.at, item.total)
  }

  lemma Blank(m: seq<Byte>, items: seq<Item>, c: nat, bytes: nat) returns (b: seq<Byte>)
    requires c < |items| && AllIn(m, items) && AllApart(items) && AllMulti(items[c..])
    requires bytes < |items[c].Image(m)| && !KnownRootBit(m, items[c], bytes)
    ensures Blanked(m, b, items, c, bytes)
    ensures forall i :: c < i < |items| ==> NoneOn(b, items[i])
    ensures !KnownKey(m, items[c], bytes) ==> NoneOn(b, items[c])
  {
    hide Item.In, Item.Checked, Item.Restored, Item.Image, KnownRootBit, KnownKey, Zero, NoKeys, Wiped, SameOutside,
         UntouchedElsewhere, SameRange, Softened;
    var rest, item := items[c + 1..], items[c];
    assert forall i :: 0 <= i < |rest| ==> rest[i] == items[c + 1 + i] && rest[i] == items[c..][i + 1];
    assert item == items[c..][0];
    var b0 := WipeAll(m, rest);
    SameLength(m, b0, rest);
    HeadFits(m, item);
    var keep := if IsFlat(item.total) then bytes else 0;
    assert bytes < Head(item) || !IsFlat(item.total) by { FlatImage(m, item); }
    WipeOne(b0, item, keep);
    b := Wiped(b0, item, keep);
    forall i | 0 <= i < c
      ensures items[i].Restored(b, m) && items[i].In(b) && items[i].Image(b) == items[i].Image(m)
    {
      RegionKept(m, b0, rest, items[i]);
      RangeThrough(m, b0, b, items[i], item);
      SameItemInBoth(m, b, items[i]);
    }
    forall i | c < i < |items|
      ensures items[i].In(b) && !items[i].Checked(b) && NoneOn(b, items[i])
    {
      assert items[i] == rest[i - c - 1];
      HeadFits(m, items[i]);
      ZeroStays(b0, b, items[i], item);
      ZeroHead(b, items[i]);
    }
    RegionKept(m, b0, rest, item);
    if IsFlat(item.total) {
      KeptPrefix(m, b0, b, item, bytes);
      SoftenFlat(m, b, item, bytes);
    } else {
      SoftenPyramid(m, b, item, bytes);
    }
  }

  lemma FlatImage(m: seq<Byte>, item: Item)
    requires item.Multi? && item.In(m)
    ensures IsFlat(item.total) ==> |item.Image(m)| == FlatSize(item.total) == Head(item)
  {
  }

  lemma KeptPrefix(m: seq<Byte>, b0: seq<Byte>, b: seq<Byte>, item: Item, bytes: nat)
    requires item.Multi? && bytes <= item.size && SameRange(m, b0, item.at, item.End())
    requires SameRange(b0, b, item.at, item.at + bytes)
    ensures SameRange(m, b, item.at, item.at + bytes)
  {
  }

  /** Such a stream is accepted from the known bytes alone. */
  lemma BlankedAccepted(m: seq<Byte>, b: seq<Byte>, items: seq<Item>, c: nat, n: nat)
    requires CutAt(m, items, n, c) && Blanked(m, b, items, c, n - StartOf(m, items, c))
    ensures WithinLimit(b, items, n) && StartOf(b, items, c) == StartOf(m, items, c)
    ensures n < EndOf(b, items, c)
  {
    hide Images, Item.Restored, Item.In, Item.Image, Item.Checked;
    assert forall i :: 0 <= i < c ==> items[..c][i] == items[i];
    SameImages(m, b, items[..c]);
    assert items[..c + 1] == items[..c] + [items[c]];
    ImagesOne(b, items[..c], items[c]);
    forall i: nat | i < |items| && items[i].Checked(b)
      ensures EndOf(b, items, i) <= n
    {
      if i < c {
        ImagesPrefix(b, items[..i + 1], items[..c]);
      }
    }
  }

  /** Both forms begin with the same n bytes. */
  lemma SameBeginning(l: Layout, offset: nat, m: seq<Byte>, b: seq<Byte>, items: seq<Item>, c: nat, n: nat)
    requires l.Shaped() && items <= Plan(l, offset, m) && Plan(l, offset, b) == items
    requires CutAt(m, items, n, c) && Blanked(m, b, items, c, n - StartOf(m, items, c))
    ensures Begins(Compressed(l, offset, b), Compressed(l, offset, m), n)
  {
    hide Images, Item.Restored, Item.In, Item.Image, Item.Checked, Plan, Stored, Layout.Shaped;
    assert forall i :: 0 <= i < c ==> items[..c][i] == items[i];
    SameImages(m, b, items[..c]);
    assert items[..c + 1] == items[..c] + [items[c]];
    ImagesOne(b, items[..c], items[c]);
    ImagesOne(m, items[..c], items[c]);
    ImagesPrefix(b, items[..c + 1], items);
    ImagesPrefix(m, items[..c + 1], Plan(l, offset, m));
    var head := Stored(offset, 8) + Images(m, items[..c]);
    var x, y := items[c].Image(b), items[c].Image(m);
    JoinBegins(head, x, y, Compressed(l, offset, b), Compressed(l, offset, m), n);
  }

  lemma JoinBegins(head: seq<Byte>, x: seq<Byte>, y: seq<Byte>, f: seq<Byte>, g: seq<Byte>, n: nat)
    requires head + x <= f && head + y <= g && |head| <= n <= |head| + |x| && n <= |head| + |y|
    requires x[..n - |head|] == y[..n - |head|]
    ensures Begins(f, g, n)
  {
    assert f[..n] == head + x[..n - |head|];
    assert g[..n] == head + y[..n - |head|];
  }

  /** A cut that is not refused whatever follows: there is a stream whose form begins with the known bytes and is
      accepted with that size. */
  lemma CutContinues(l: Layout, offset: nat, m: seq<Byte>, n: nat) returns (b: seq<Byte>)
    requires Sound(l, offset, m) && n < |Compressed(l, offset, m)| && !CutRefused(l, offset, m, n)
    ensures Sound(l, offset, b) && |b| == |m| && Begins(Compressed(l, offset, b), Compressed(l, offset, m), n)
    ensures WithinLimit(b, Plan(l, offset, b), n)
  {
    hide Images, Sound, Compressed, Plan, WithinLimit, RefusedAt;
    assert l.Shaped() by { SoundShaped(l, offset, m); }
    FormSize(l, offset, m);
    var c := CutExists(m, Plan(l, offset, m), n);
    b := ContinueAt(l, offset, m, n, c);
  }

  lemma SoundShaped(l: Layout, offset: nat, m: seq<Byte>)
    requires Sound(l, offset, m)
    ensures l.Shaped()
  {
  }

  lemma SoundParts(l: Layout, offset: nat, m: seq<Byte>)
    requires Sound(l, offset, m)
    ensures l.Shaped() && AllIn(m, Plan(l, offset, m)) && AllApart(Plan(l, offset, m))
  {
  }

  lemma FormSize(l: Layout, offset: nat, m: seq<Byte>)
    requires l.Shaped()
    ensures |Compressed(l, offset, m)| == 8 + |Images(m, Plan(l, offset, m))|
  {
    hide Plan, Images, Layout.Shaped;
  }

  lemma ContinueAt(l: Layout, offset: nat, m: seq<Byte>, n: nat, c: nat) returns (b: seq<Byte>)
    requires Sound(l, offset, m) && CutAt(m, Plan(l, offset, m), n, c) && !RefusedAt(l, offset, m, n, c)
    ensures Sound(l, offset, b) && |b| == |m| && Begins(Compressed(l, offset, b), Compressed(l, offset, m), n)
    ensures WithinLimit(b, Plan(l, offset, b), n)
  {
    hide Images, Blanked, Stage, Plan, Sound, Compressed, WithinLimit, RefusedAt, Soft, Layout.Shaped, CutAt, StartOf;
    SoundShaped(l, offset, m);
    SoftTail(l, offset, m, n, c);
    b := BlankCut(l, offset, m, n, c);
    BlankContinues(l, offset, m, b, n, c);
  }

  /** The blanked stream for a cut. */
  ghost predicate BlankedCut(l: Layout, offset: nat, m: seq<Byte>, b: seq<Byte>, n: nat, c: nat)
    requires l.Shaped()
  {
    var g := Stage(l, offset, m, 5);
    && CutAt(m, g, n, c) && g <= Plan(l, offset, m) && AllApart(g)
    && Blanked(m, b, g, c, n - StartOf(m, g, c)) && Plan(l, offset, b) == g
  }

  lemma BlankCut(l: Layout, offset: nat, m: seq<Byte>, n: nat, c: nat) returns (b: seq<Byte>)
    requires l.Shaped() && Sound(l, offset, m) && Soft(l, offset, m, n, c)
    ensures BlankedCut(l, offset, m, b, n, c)
  {
    hide Blanked, Stage, Plan, Sound, KnownKey, KnownRootBit, NoneOn, Item.Image, Layout.Shaped, AllIn, AllApart,
         AllMulti, StartOf, EndOf;
    SoundParts(l, offset, m);
    var plan, g := Plan(l, offset, m), Stage(l, offset, m, 5);
    CutBytes(m, plan, c, n);
    CutInFront(m, plan, g, n, c);
    FrontOfPlan(m, plan, g);
    b := Blank(m, g, c, n - StartOf(m, g, c));
    BlankedPlan(l, offset, m, b, g, c, n - StartOf(m, g, c));
  }

  lemma BlankContinues(l: Layout, offset: nat, m: seq<Byte>, b: seq<Byte>, n: nat, c: nat)
    requires Sound(l, offset, m) && BlankedCut(l, offset, m, b, n, c)
    ensures Sound(l, offset, b) && |b| == |m| && Begins(Compressed(l, offset, b), Compressed(l, offset, m), n)
    ensures WithinLimit(b, Plan(l, offset, b), n)
  {
    assert l.Shaped();
    hide Images, Blanked, Stage, Plan, Sound, Compressed, WithinLimit, Layout.Shaped, AllApart, Begins;
    var g := Stage(l, offset, m, 5);
    BlankedAccepted(m, b, g, c, n);
    SameBeginning(l, offset, m, b, g, c, n);
    BlankedSound(l, offset, m, b, g, c, n - StartOf(m, g, c));
    BlankedLength(m, b, g, c, n - StartOf(m, g, c));
  }

  lemma BlankedLength(m: seq<Byte>, b: seq<Byte>, g: seq<Item>, c: nat, bytes: nat)
    requires Blanked(m, b, g, c, bytes)
    ensures |m| == |b|
  {
  }

  lemma CutInFront(m: seq<Byte>, plan: seq<Item>, g: seq<Item>, n: nat, c: nat)
    requires g <= plan && c < |g| && CutAt(m, plan, n, c)
    ensures CutAt(m, g, n, c) && StartOf(m, g, c) == StartOf(m, plan, c) && g[c] == plan[c]
  {
    hide Images;
    assert g[..c] == plan[..c] && g[..c + 1] == plan[..c + 1];
  }

  lemma FrontOfPlan(m: seq<Byte>, plan: seq<Item>, g: seq<Item>)
    requires g <= plan && AllIn(m, plan) && AllApart(plan)
    ensures AllIn(m, g) && AllApart(g)
  {
    hide Item.In, Apart;
    assert forall i :: 0 <= i < |g| ==> g[i] == plan[i];
  }

  lemma BlankedPlan(l: Layout, offset: nat, m: seq<Byte>, b: seq<Byte>, g: seq<Item>, c: nat, bytes: nat)
    requires l.Shaped() && g == Stage(l, offset, m, 5) && Blanked(m, b, g, c, bytes)
    requires 4 < c < |g| && g[2] == l.leaf && g[3] == l.left && (l.som.Some? ==> g[|g| - 1] == l.som.value.valid)
    requires l.som.Some? ==> NoneOn(b, g[|g| - 1])
    ensures Plan(l, offset, b) == g
  {
    hide Stage, Plan, Layout.Shaped, Item.Restored, Item.In, Item.Image, NoKeys;
    assert g[2].Restored(b, m) && g[3].Restored(b, m);
    SamePlan(l, offset, m, b);
  }

  lemma BlankedSound(l: Layout, offset: nat, m: seq<Byte>, b: seq<Byte>, g: seq<Item>, c: nat, bytes: nat)
    requires Sound(l, offset, m) && Plan(l, offset, b) == g && AllApart(g) && Blanked(m, b, g, c, bytes)
    ensures Sound(l, offset, b)
  {
    hide Plan, Item.Restored, Item.In, Item.Image, Item.Checked, Layout.Shaped;
  }
}
