/** Which parts of a stream's state travel in its compressed form, in which order. */
module StreamPlan {
  import opened Common
  import opened Crc32c
  import opened MultibitCodec
  import opened DatabaseFormat

  /** A part of the stream state: bytes copied as they are, or a multibit in a region of the given size. */
  datatype Item = Raw(at: nat, len: nat) | Multi(at: nat, total: nat, size: nat)
  {
    function End(): nat { at + if Raw? then len else size }

    ghost predicate In(m: seq<Byte>) {
      if Raw? then at + len <= |m| else Fits(m, at, total, size)
    }

    function Image(m: seq<Byte>): seq<Byte> {
      if Raw? then (if at + len <= |m| then m[at..at + len] else [])
      else if IsFlat(total) && at + FlatSize(total) > |m| then []
      else MultibitCodec.Image(m, at, total)
    }

    ghost predicate Restored(m: seq<Byte>, src: seq<Byte>) {
      if Raw? then at + len <= |m| == |src| && m[at..at + len] == src[at..at + len]
      else MultibitCodec.Restored(m, src, at, total)
    }

    /** Reading it back looks at the buffer limit. */
    predicate Checked(m: seq<Byte>) {
      Raw? || !Unchecked(m, at, total)
    }
  }

  predicate Apart(a: Item, b: Item) { a.End() <= b.at || b.End() <= a.at }

  /** Start-of-match slots. */
  datatype Som = Som(writable: Item, valid: Item, location: nat, width: nat)
  {
    function Slot(k: nat): Item { Raw(location + k * width, width) }
  }

  /** Where an engine keeps the parts of its stream state. */
  datatype Layout = Layout(
    historyRequired: nat, anchoredDistance: nat, status: nat, roles: Item, leaf: Item, left: Item, longLit: Item,
    anchor: Item, groups: Item, history: nat, exhausted: Item, logical: Item, combinations: Item,
    nfa: nat -> Item, leftfixBegin: nat, leftIter: Option<set<nat>>, lag: nat -> nat, som: Option<Som>)
  {
    ghost predicate Shaped() {
      && roles.Multi? && leaf.Multi? && left.Multi? && longLit.Raw? && anchor.Raw? && groups.Raw?
      && exhausted.Multi? && logical.Multi? && combinations.Multi? && historyRequired < 0x1_0000_0000
      && (forall q: nat :: nfa(q).Raw?) && (som.Some? ==> som.value.writable.Multi? && som.value.valid.Multi?)
    }
  }

  /** How much history travels: the offset is cut to 32 bits first. */
  function HistoryCopied(l: Layout, offset: nat): nat {
    Min(offset % 0x1_0000_0000, l.historyRequired)
  }

  /** The live history travels whole if and only if the cut does not bite. */
  lemma HistoryWholeIff(l: Layout, offset: nat)
    requires l.historyRequired < 0x1_0000_0000
    ensures HistoryCopied(l, offset) == Min(l.historyRequired, offset)
       <==> offset < 0x1_0000_0000 || offset % 0x1_0000_0000 >= l.historyRequired
    ensures HistoryCopied(l, 0x1_0000_0000) == 0
  {
  }

  function Front(l: Layout): seq<Item> {
    [Raw(l.status, 1), l.roles, l.leaf, l.left, l.longLit]
  }

  function Middle(l: Layout, offset: nat): seq<Item> {
    var n := HistoryCopied(l, offset);
    (if offset <= l.anchoredDistance then [l.anchor] else []) +
    [l.groups, Raw(l.history + l.historyRequired - n, n), l.exhausted, l.logical, l.combinations]
  }

  /** The three walks over keys that are on. */
  datatype Walk = Endfixes | Leftfixes | SomSlots

  function Index(l: Layout, w: Walk): Item
    requires l.Shaped() && (w.SomSlots? ==> l.som.Some?)
    ensures Index(l, w).Multi?
  {
    match w
    case Endfixes => l.leaf
    case Leftfixes => l.left
    case SomSlots => l.som.value.valid
  }

  /** Leftfixes that are transient are passed over. */
  predicate Selected(l: Layout, w: Walk, k: nat) {
    w.Leftfixes? ==> l.leftIter.Some? && k in l.leftIter.value
  }

  /** What one key adds. */
  function Parts(l: Layout, w: Walk, k: nat): seq<Item>
    requires w.SomSlots? ==> l.som.Some?
  {
    match w
    case Endfixes => [l.nfa(k)]
    case Leftfixes => [l.nfa(k + l.leftfixBegin), Raw(l.lag(k), 1)]
    case SomSlots => [l.som.value.Slot(k)]
  }

  predicate Visits(l: Layout, w: Walk, m: seq<Byte>, k: nat)
    requires l.Shaped() && (w.SomSlots? ==> l.som.Some?)
  {
    Selected(l, w, k) && KeyOn(m, Index(l, w).at, Index(l, w).total, k)
  }

  /** The parts of all keys from k on, in key order. */
  function KeyParts(l: Layout, w: Walk, m: seq<Byte>, k: nat): seq<Item>
    requires l.Shaped() && (w.SomSlots? ==> l.som.Some?)
    decreases Index(l, w).total - k
  {
    if k >= Index(l, w).total then []
    else (if Visits(l, w, m, k) then Parts(l, w, k) else []) + KeyParts(l, w, m, k + 1)
  }

  function Nfas(l: Layout, m: seq<Byte>): seq<Item>
    requires l.Shaped()
  {
    KeyParts(l, Endfixes, m, 0)
  }

  function Lefts(l: Layout, m: seq<Byte>): seq<Item>
    requires l.Shaped()
  {
    if l.leftIter.Some? then KeyParts(l, Leftfixes, m, 0) else []
  }

  function SomBits(l: Layout): seq<Item> {
    if l.som.Some? then [l.som.value.writable, l.som.value.valid] else []
  }

  function Slots(l: Layout, m: seq<Byte>): seq<Item>
    requires l.Shaped()
  {
    if l.som.Some? then KeyParts(l, SomSlots, m, 0) else []
  }

  /** Everything that travels behind the offset, for a stream at this offset with this state. */
  function Plan(l: Layout, offset: nat, m: seq<Byte>): seq<Item>
    requires l.Shaped()
  {
    Front(l) + Middle(l, offset) + Nfas(l, m) + Lefts(l, m) + SomBits(l) + Slots(l, m)
  }

  function Images(m: seq<Byte>, items: seq<Item>): seq<Byte> {
    if items == [] then [] else Images(m, items[..|items| - 1]) + items[|items| - 1].Image(m)
  }

  /** The compressed form of a stream. */
  function Compressed(l: Layout, offset: nat, m: seq<Byte>): seq<Byte>
    requires l.Shaped()
  {
    Stored(offset, 8) + Images(m, Plan(l, offset, m))
  }

  /** Where the i-th item ends in the compressed form. */
  function EndOf(m: seq<Byte>, items: seq<Item>, i: nat): nat
    requires i < |items|
  {
    8 + |Images(m, items[..i + 1])|
  }

  /** Every item that is checked against the limit ends within it. */
  ghost predicate WithinLimit(m: seq<Byte>, items: seq<Item>, limit: nat) {
    8 <= limit && forall i: nat :: i < |items| && items[i].Checked(m) ==> EndOf(m, items, i) <= limit
  }

  ghost predicate AllIn(m: seq<Byte>, items: seq<Item>) {
    forall i :: 0 <= i < |items| ==> items[i].In(m)
  }

  ghost predicate AllApart(items: seq<Item>) {
    forall i, j :: 0 <= i < j < |items| ==> Apart(items[i], items[j])
  }

  ghost predicate AllRestored(m: seq<Byte>, src: seq<Byte>, items: seq<Item>) {
    |m| == |src| && forall i :: 0 <= i < |items| ==> items[i].Restored(m, src)
  }

  /** A stream whose parts lie inside its state, apart from each other. */
  ghost predicate Sound(l: Layout, offset: nat, m: seq<Byte>) {
    && l.Shaped() && offset < 0x1_0000_0000_0000_0000
    && AllIn(m, Plan(l, offset, m)) && AllApart(Plan(l, offset, m))
  }

  lemma ImagesOne(m: seq<Byte>, items: seq<Item>, item: Item)
    ensures Images(m, items + [item]) == Images(m, items) + item.Image(m)
  {
    assert (items + [item])[..|items|] == items;
  }

  lemma {:induction false} ImagesPrefix(m: seq<Byte>, a: seq<Item>, b: seq<Item>)
    requires a <= b
    ensures Images(m, a) <= Images(m, b)
    decreases |b|
  {
    hide Item.Image;
    if |a| < |b| {
      ImagesPrefix(m, a, b[..|b| - 1]);
    } else {
      assert a == b;
    }
  }

  /** The stages of a plan, each the front of the next. */
  ghost function Stage(l: Layout, offset: nat, m: seq<Byte>, n: nat): seq<Item>
    requires l.Shaped()
  {
    if n == 0 then []
    else if n == 1 then Front(l)
    else if n == 2 then Front(l) + Middle(l, offset)
    else if n == 3 then Front(l) + Middle(l, offset) + Nfas(l, m)
    else if n == 4 then Front(l) + Middle(l, offset) + Nfas(l, m) + Lefts(l, m)
    else Front(l) + Middle(l, offset) + Nfas(l, m) + Lefts(l, m) + SomBits(l)
  }

  ghost predicate Staged(l: Layout, offset: nat, m: seq<Byte>)
    requires l.Shaped()
  {
    && l.leaf in Stage(l, offset, m, 2) && l.left in Stage(l, offset, m, 3)
    && (l.som.Some? ==> l.som.value.valid in Stage(l, offset, m, 5))
    && Front(l) == Stage(l, offset, m, 1) <= Stage(l, offset, m, 2) <= Stage(l, offset, m, 3)
    && Stage(l, offset, m, 3) <= Stage(l, offset, m, 4) <= Stage(l, offset, m, 5) <= Plan(l, offset, m)
    && Front(l) + Middle(l, offset) == Stage(l, offset, m, 2)
    && Stage(l, offset, m, 2) + KeyParts(l, Endfixes, m, 0) == Stage(l, offset, m, 3)
    && (l.leftIter.Some? ==> Stage(l, offset, m, 3) + KeyParts(l, Leftfixes, m, 0) == Stage(l, offset, m, 4))
    && (l.leftIter.None? ==> Stage(l, offset, m, 3) == Stage(l, offset, m, 4))
    && Stage(l, offset, m, 4) + SomBits(l) == Stage(l, offset, m, 5)
    && (l.som.Some? ==> Stage(l, offset, m, 5) + KeyParts(l, SomSlots, m, 0) == Plan(l, offset, m))
    && (l.som.None? ==> Stage(l, offset, m, 4) == Plan(l, offset, m))
  }

  lemma Stages(l: Layout, offset: nat, m: seq<Byte>)
    requires l.Shaped()
    ensures Staged(l, offset, m)
  {
    hide KeyParts;
    assert l.leaf == Front(l)[2] && l.left == Front(l)[3];
    assert l.som.Some? ==> l.som.value.valid == SomBits(l)[1];
  }

  /** Where the i-th item starts in the compressed form. */
  function StartOf(m: seq<Byte>, items: seq<Item>, i: nat): nat
    requires i <= |items|
  {
    8 + |Images(m, items[..i])|
  }

  /** Item c is the first that does not lie within the first n bytes. */
  ghost predicate CutAt(m: seq<Byte>, items: seq<Item>, n: nat, c: nat) {
    c < |items| && StartOf(m, items, c) <= n < EndOf(m, items, c)
  }

  /** A key of a flat multibit is on, in one of its first bytes. */
  ghost predicate KnownKey(m: seq<Byte>, item: Item, bytes: nat) {
    item.Multi? && IsFlat(item.total) && exists k: nat :: KeyOn(m, item.at, item.total, k) && k / 8 < bytes
  }

  /** The root of a pyramid has a bit set in one of its first bytes. */
  ghost predicate KnownRootBit(m: seq<Byte>, item: Item, bytes: nat) {
    item.Multi? && !IsFlat(item.total) && !ClearBefore(PyramidOf(m, item.at, item.total), bytes)
  }

  /** A form cut within item c is refused whatever bytes follow: the item is raw, or a pyramid known to have a bit set;
      or a raw part comes behind that is sure to be read, being in the fixed list, or that of an active engine, or the
      slot of a key known to be valid. */
  ghost predicate RefusedAt(l: Layout, offset: nat, m: seq<Byte>, n: nat, c: nat)
    requires l.Shaped()
  {
    var plan := Plan(l, offset, m);
    && CutAt(m, plan, n, c)
    && var bytes := n - StartOf(m, plan, c);
       || plan[c].Raw? || KnownRootBit(m, plan[c], bytes)
       || (exists i :: c < i < |Stage(l, offset, m, 4)| && i < |plan| && plan[i].Raw?)
       || (l.som.Some? && c + 1 == |Stage(l, offset, m, 5)| && KnownKey(m, plan[c], bytes))
  }

  ghost predicate CutRefused(l: Layout, offset: nat, m: seq<Byte>, n: nat)
    requires l.Shaped()
  {
    n < 8 || exists c: nat :: RefusedAt(l, offset, m, n, c)
  }

  lemma CutUnique(m: seq<Byte>, items: seq<Item>, n: nat, c: nat, d: nat)
    requires CutAt(m, items, n, c) && CutAt(m, items, n, d)
    ensures c == d
  {
    hide Images;
    if c < d {
      ImagesPrefix(m, items[..c + 1], items[..d]);
    } else if d < c {
      ImagesPrefix(m, items[..d + 1], items[..c]);
    }
  }

  /** What is left of a stream when a cut form is read on: the items before the cut, and what it leaves of the cut one.
      Only multibits have been read since. */
  ghost predicate Behind(m: seq<Byte>, src: seq<Byte>, done: seq<Item>, c: nat, n: nat) {
    && CutAt(src, done, n, c)
    && (forall i :: c <= i < |done| ==> done[i].Multi?)
    && AllRestored(m, src, done[..c])
    && CutShort(m, src, done[c].at, done[c].total, n - StartOf(src, done, c))
  }

  /** The next item of a plan: where its image stands. */
  lemma NextImage(m: seq<Byte>, done: seq<Item>, item: Item, goal: seq<Item>)
    requires done + [item] <= goal
    ensures Images(m, done) + item.Image(m) == Images(m, done + [item]) <= Images(m, goal)
  {
    hide Item.Image, Images;
    ImagesOne(m, done, item);
    ImagesPrefix(m, done + [item], goal);
  }

  /** Writing inside the region of the next item leaves the earlier ones restored. */
  lemma KeepRestored(m: seq<Byte>, m': seq<Byte>, src: seq<Byte>, done: seq<Item>, item: Item, goal: seq<Item>)
    requires done + [item] <= goal && AllApart(goal) && AllIn(src, goal)
    requires AllRestored(m, src, done) && SameOutside(m, m', item.at, item.End() - item.at)
    ensures AllRestored(m', src, done)
    ensures item.Restored(m', src) ==> AllRestored(m', src, done + [item])
  {
    hide Fits, MultibitCodec.Restored;
    forall i | 0 <= i < |done|
      ensures done[i].Restored(m', src)
    {
      assert goal[i] == done[i] && goal[|done|] == item;
      OneStays(m, m', src, done[i], item);
    }
  }

  /** So does reading on behind a cut. */
  lemma KeepBehind(m: seq<Byte>, m': seq<Byte>, src: seq<Byte>, done: seq<Item>, c: nat, n: nat, item: Item,
                   goal: seq<Item>)
    requires done + [item] <= goal && AllApart(goal) && AllIn(src, goal) && item.Multi?
    requires Behind(m, src, done, c, n) && SameOutside(m, m', item.at, item.End() - item.at)
    ensures Behind(m', src, done + [item], c, n)
  {
    hide Fits, MultibitCodec.Restored, Images, ClearBefore;
    var more := done + [item];
    assert more[..c] == done[..c] && more[..c + 1] == done[..c + 1];
    forall i | 0 <= i < c
      ensures done[i].Restored(m', src)
    {
      assert done[..c][i] == done[i] == goal[i] && goal[|done|] == item;
      OneStays(m, m', src, done[i], item);
    }
    var cut, bytes := done[c], n - StartOf(src, done, c);
    if IsFlat(cut.total) {
      assert goal[c] == cut && goal[|done|] == item;
      CutBytes(src, done, c, n);
      FlatStays(m, m', src, cut, bytes, item);
    }
  }

  lemma CutBytes(m: seq<Byte>, items: seq<Item>, c: nat, n: nat)
    requires CutAt(m, items, n, c)
    ensures EndOf(m, items, c) == StartOf(m, items, c) + |items[c].Image(m)|
    ensures items[c].Multi? && IsFlat(items[c].total) ==> n - StartOf(m, items, c) < FlatSize(items[c].total)
  {
    hide Images;
    assert items[..c + 1] == items[..c] + [items[c]];
    ImagesOne(m, items[..c], items[c]);
  }

  lemma FlatStays(m: seq<Byte>, m': seq<Byte>, src: seq<Byte>, a: Item, bytes: nat, item: Item)
    requires a.Multi? && IsFlat(a.total) && a.In(src) && Apart(a, item)
    requires CutShort(m, src, a.at, a.total, bytes) && bytes <= FlatSize(a.total)
    requires SameOutside(m, m', item.at, item.End() - item.at)
    ensures CutShort(m', src, a.at, a.total, bytes)
  {
    assert m'[a.at..a.at + bytes] == m[a.at..a.at + bytes];
  }

  /** Bytes outside the items are as they were. */
  ghost predicate UntouchedElsewhere(memory: seq<Byte>, m: seq<Byte>, items: seq<Item>) {
    && |memory| == |m|
    && forall p: nat :: p < |m| && Outside(p, items) ==> m[p] == memory[p]
  }

  ghost predicate Outside(p: nat, items: seq<Item>) {
    forall i :: 0 <= i < |items| ==> p < items[i].at || items[i].End() <= p
  }

  lemma StillUntouched(memory: seq<Byte>, m: seq<Byte>, m': seq<Byte>, done: seq<Item>, item: Item)
    requires UntouchedElsewhere(memory, m, done) && SameOutside(m, m', item.at, item.End() - item.at)
    ensures UntouchedElsewhere(memory, m', done + [item])
  {
    var more := done + [item];
    forall p: nat | p < |m'| && Outside(p, more)
      ensures m'[p] == memory[p]
    {
      assert forall i :: 0 <= i < |done| ==> more[i] == done[i];
      assert more[|done|] == item;
      assert Outside(p, done);
    }
  }

  lemma OneStays(m: seq<Byte>, m': seq<Byte>, src: seq<Byte>, a: Item, item: Item)
    requires a.Restored(m, src) && a.In(src) && Apart(a, item) && SameOutside(m, m', item.at, item.End() - item.at)
    ensures a.Restored(m', src)
  {
    hide Fits, MultibitCodec.Restored;
    if a.Raw? {
      assert m'[a.at..a.at + a.len] == m[a.at..a.at + a.len];
    } else {
      RestoredStays(m, m', src, a.at, a.total, a.size, item.at, item.End() - item.at);
    }
  }

  lemma LimitOne(m: seq<Byte>, done: seq<Item>, item: Item, limit: nat)
    requires WithinLimit(m, done, limit)
    requires item.Checked(m) ==> 8 + |Images(m, done + [item])| <= limit
    ensures WithinLimit(m, done + [item], limit)
  {
    hide Item.Checked, Images;
    var more := done + [item];
    forall i: nat | i < |more| && more[i].Checked(m)
      ensures EndOf(m, more, i) <= limit
    {
      if i < |done| {
        assert more[..i + 1] == done[..i + 1];
        assert EndOf(m, done, i) <= limit;
      } else {
        assert more[..i + 1] == more;
      }
    }
  }

  lemma LimitBroken(m: seq<Byte>, done: seq<Item>, item: Item, goal: seq<Item>, limit: nat)
    requires done + [item] <= goal && item.Checked(m) && 8 + |Images(m, done + [item])| > limit
    ensures !WithinLimit(m, goal, limit)
  {
    hide Item.Checked, Images;
    assert goal[|done|] == item && goal[..|done| + 1] == done + [item];
    assert EndOf(m, goal, |done|) > limit;
  }
}
