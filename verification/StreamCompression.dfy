/** Compressing and expanding streams, what survives, and which truncated buffers are refused. */
module StreamCompression {
  import opened Common
  import opened Crc32c
  import opened Multibit
  import opened MultibitCodec
  import opened StreamPlan
  import opened StreamCodec
  import opened StreamCuts
  import Bits

  datatype Result = Success | InsufficientSpace | Invalid

  /** Size first, then compress if the caller's buffer is large enough. */
  method CompressStream(l: Layout, offset: nat, body: seq<Byte>, room: nat)
    returns (result: Result, used: nat, buf: seq<Byte>)
    requires Sound(l, offset, body)
    ensures used == |Compressed(l, offset, body)|
    ensures result == if room < used then InsufficientSpace else Success
    ensures result == Success ==> buf == Compressed(l, offset, body)
  {
    hide Sound, Compressed, Plan, AllRestored, WithinLimit;
    var sizer := new Codec(Size, l, offset, body, [], 0, offset, body, 0);
    used := sizer.Run();
    buf := [];
    if room < used {
      return InsufficientSpace, used, buf;
    }
    var writer := new Codec(Compress, l, offset, body, [], used, offset, body, 0);
    var written := writer.Run();
    WrittenOut(writer);
    return Success, used, writer.buf;
  }

  lemma WrittenOut(c: Codec)
    requires c.Ready() && c.mode.Compress? && c.done == c.Goal()
    ensures c.buf == Compressed(c.layout, c.srcOffset, c.src)
  {
    hide Plan, Sound;
  }

  /** Expand a buffer of which the first `size` bytes are said to be there, over whatever the memory held before. The
      buffer holds a compressed form, or begins with `size` bytes of one, any bytes following. */
  method ExpandStream(l: Layout, memory: seq<Byte>, buf: seq<Byte>, size: nat, ghost srcOffset: nat,
                      ghost src: seq<Byte>)
    returns (result: Result, offset: nat, body: seq<Byte>)
    requires Sound(l, srcOffset, src) && |memory| == |src|
    requires var form := Compressed(l, srcOffset, src); Begins(buf, form, Min(size, |form|))
    ensures Compressed(l, srcOffset, src) <= buf ==>
              && result == (if WithinLimit(src, Plan(l, srcOffset, src), size) then Success else Invalid)
              && (result == Success ==>
                    && offset == srcOffset && AllRestored(body, src, Plan(l, srcOffset, src))
                    && UntouchedElsewhere(memory, body, Plan(l, srcOffset, src)))
    ensures size < |Compressed(l, srcOffset, src)| && CutRefused(l, srcOffset, src, size) ==> result == Invalid
  {
    hide Sound, Layout.Shaped, Compressed, Plan, AllRestored, WithinLimit, CutRefused, UntouchedElsewhere, Begins;
    ghost var known := KnownPart(l, buf, size, srcOffset, src);
    var reader := new Codec(Expand, l, 0, memory, buf, size, srcOffset, src, known);
    var used := reader.Run();
    if used == 0 {
      return Invalid, 0, memory;
    }
    return Success, reader.offset, reader.body;
  }

  /** How much of the form the buffer is known to hold: all of it, or the first `size` bytes. */
  lemma KnownPart(l: Layout, buf: seq<Byte>, size: nat, offset: nat, m: seq<Byte>) returns (known: nat)
    requires Sound(l, offset, m)
    requires var form := Compressed(l, offset, m); Begins(buf, form, Min(size, |form|))
    ensures l.Shaped()
    ensures var form := Compressed(l, offset, m);
            && Begins(buf, form, known) && (known == |form| <==> form <= buf) && (known == |form| || known == size)
            && (size < |form| && CutRefused(l, offset, m, size) ==> !WithinLimit(m, Plan(l, offset, m), size))
  {
    assert l.Shaped();
    hide Sound, Layout.Shaped, Compressed, Plan, CutRefused, WithinLimit;
    var form := Compressed(l, offset, m);
    if form <= buf {
      known := |form|;
      assert buf[..|form|] == form[..|form|];
    } else {
      known := size;
      NotWhole(buf, form, size);
    }
    if CutRefused(l, offset, m, size) {
      RefusedOverruns(l, offset, m, size);
    }
  }

  lemma NotWhole(buf: seq<Byte>, form: seq<Byte>, size: nat)
    requires Begins(buf, form, Min(size, |form|)) && !(form <= buf)
    ensures size < |form| && Begins(buf, form, size)
  {
    assert form[..|form|] == form;
  }

  /** A cut that is refused whatever follows is also refused when the form itself follows. */
  lemma RefusedOverruns(l: Layout, offset: nat, m: seq<Byte>, n: nat)
    requires l.Shaped() && CutRefused(l, offset, m, n)
    ensures !WithinLimit(m, Plan(l, offset, m), n)
  {
    hide Plan, Images, Stage, KnownKey, KnownRootBit, Layout.Shaped;
    if n >= 8 {
      var plan := Plan(l, offset, m);
      var c: nat :| RefusedAt(l, offset, m, n, c);
      var bytes := n - StartOf(m, plan, c);
      if plan[c].Raw? {
        EndsBeyond(m, plan, n, c, c);
      } else if KnownRootBit(m, plan[c], bytes) {
        RootChecked(m, plan[c], bytes);
        EndsBeyond(m, plan, n, c, c);
      } else if i :| c < i < |Stage(l, offset, m, 4)| && i < |plan| && plan[i].Raw? {
        EndsBeyond(m, plan, n, c, i);
      } else {
        var i := SlotBehind(l, offset, m, c, bytes);
        EndsBeyond(m, plan, n, c, i);
      }
    }
  }

  lemma EndsBeyond(m: seq<Byte>, plan: seq<Item>, n: nat, c: nat, i: nat)
    requires CutAt(m, plan, n, c) && c <= i < |plan| && plan[i].Checked(m)
    ensures !WithinLimit(m, plan, n)
  {
    hide Images, Item.Checked;
    ImagesPrefix(m, plan[..c + 1], plan[..i + 1]);
  }

  lemma RootChecked(m: seq<Byte>, item: Item, bytes: nat)
    requires KnownRootBit(m, item, bytes)
    ensures item.Checked(m)
  {
    hide Pyramid.Block;
    var p := PyramidOf(m, item.at, item.total);
    var b: nat :| b < 64 && b / 8 < bytes && IsSet(p.Block(0, 0), b);
    assert NextSet(p.Block(0, 0), 0) <= b;
  }

  /** The slot of a valid key comes behind the multibit that says so. */
  lemma SlotBehind(l: Layout, offset: nat, m: seq<Byte>, c: nat, bytes: nat) returns (i: nat)
    requires l.Shaped() && l.som.Some? && c + 1 == |Stage(l, offset, m, 5)| && c < |Plan(l, offset, m)|
    requires KnownKey(m, Plan(l, offset, m)[c], bytes)
    ensures c < i < |Plan(l, offset, m)| && Plan(l, offset, m)[i].Raw?
  {
    hide KeyOn, KeyParts, Front, Middle, Layout.Shaped;
    var plan, g := Plan(l, offset, m), Stage(l, offset, m, 5);
    LastIsValid(l, offset, m);
    assert plan == g + Slots(l, m) && plan[c] == g[c];
    var item := plan[c];
    var k: nat :| KeyOn(m, item.at, item.total, k) && k / 8 < bytes;
    OnIsVisited(l, m, k);
    RawParts(l, SomSlots, k);
    KeyPartIn(l, SomSlots, m, 0, k, Parts(l, SomSlots, k)[0]);
    var j :| 0 <= j < |Slots(l, m)| && Slots(l, m)[j] == Parts(l, SomSlots, k)[0];
    i := |g| + j;
  }

  /** Compressing any stream and expanding the result over any memory restores it. */
  method RoundTrip(l: Layout, offset: nat, body: seq<Byte>, memory: seq<Byte>, room: nat)
    returns (result: Result, offset': nat, body': seq<Byte>)
    requires Sound(l, offset, body) && |memory| == |body|
    ensures result == if room < |Compressed(l, offset, body)| then InsufficientSpace else Success
    ensures result == Success ==>
              && offset' == offset && Survives(l, offset, body, body')
              && UntouchedElsewhere(memory, body', Plan(l, offset, body))
  {
    assert l.Shaped();
    hide Sound, Compressed, Plan, AllRestored, WithinLimit, Survives, Layout.Shaped, UntouchedElsewhere;
    var used, buf;
    offset', body' := 0, memory;
    result, used, buf := CompressStream(l, offset, body, room);
    if result == Success {
      WholeAccepted(l, offset, body);
      assert buf[..used] == Compressed(l, offset, body)[..used];
      result, offset', body' := ExpandStream(l, memory, buf, used, offset, body);
      RestoredSurvives(l, offset, body, body');
    }
  }

  lemma WholeAccepted(l: Layout, offset: nat, m: seq<Byte>)
    requires Sound(l, offset, m)
    ensures WithinLimit(m, Plan(l, offset, m), |Compressed(l, offset, m)|)
  {
    hide Plan, Images, Item.Checked, AllIn, AllApart, Layout.Shaped;
    var plan := Plan(l, offset, m);
    forall i: nat | i < |plan|
      ensures EndOf(m, plan, i) <= |Compressed(l, offset, m)|
    {
      ImagesPrefix(m, plan[..i + 1], plan);
    }
  }

  ghost predicate SameBytes(a: seq<Byte>, b: seq<Byte>, at: nat, n: nat) {
    at + n <= |a| == |b| && a[at..at + n] == b[at..at + n]
  }

  ghost predicate SameItem(a: seq<Byte>, b: seq<Byte>, item: Item) {
    if item.Raw? then SameBytes(a, b, item.at, item.len)
    else forall k: nat :: KeyOn(a, item.at, item.total, k) <==> KeyOn(b, item.at, item.total, k)
  }

  /** Key k of a multibit is on. */
  ghost predicate On(m: seq<Byte>, index: Item, k: nat) {
    index.Multi? && KeyOn(m, index.at, index.total, k)
  }

  /** Status, roles, active sets, long literals, groups, the copied history, exhaustion and logical keys, and anchored
      state while it matters. */
  ghost predicate FixedSurvive(l: Layout, offset: nat, src: seq<Byte>, m: seq<Byte>) {
    var n := Min(offset % 0x1_0000_0000, l.historyRequired);
    && SameBytes(src, m, l.status, 1) && SameItem(src, m, l.roles) && SameItem(src, m, l.leaf)
    && SameItem(src, m, l.left) && SameItem(src, m, l.longLit) && SameItem(src, m, l.groups)
    && SameBytes(src, m, l.history + l.historyRequired - n, n)
    && SameItem(src, m, l.exhausted) && SameItem(src, m, l.logical) && SameItem(src, m, l.combinations)
    && (offset <= l.anchoredDistance ==> SameItem(src, m, l.anchor))
    && (l.som.Some? ==> SameItem(src, m, l.som.value.writable) && SameItem(src, m, l.som.value.valid))
  }

  /** The state of every active endfix. */
  ghost predicate EndfixesSurvive(l: Layout, src: seq<Byte>, m: seq<Byte>) {
    forall k: nat :: On(src, l.leaf, k) ==> SameItem(src, m, l.nfa(k))
  }

  /** The state and the lag byte of every active leftfix that is not transient. */
  ghost predicate LeftfixesSurvive(l: Layout, src: seq<Byte>, m: seq<Byte>) {
    l.leftIter.Some? ==>
      forall k: nat :: k in l.leftIter.value && On(src, l.left, k) ==>
        SameItem(src, m, l.nfa(k + l.leftfixBegin)) && SameBytes(src, m, l.lag(k), 1)
  }

  /** Every valid slot. */
  ghost predicate SlotsSurvive(s: Som, src: seq<Byte>, m: seq<Byte>) {
    forall k: nat :: On(src, s.valid, k) ==> SameBytes(src, m, s.location + k * s.width, s.width)
  }

  ghost predicate Survives(l: Layout, offset: nat, src: seq<Byte>, m: seq<Byte>) {
    && FixedSurvive(l, offset, src, m) && EndfixesSurvive(l, src, m) && LeftfixesSurvive(l, src, m)
    && (l.som.Some? ==> SlotsSurvive(l.som.value, src, m))
  }

  // What travels ------------------------------------------------------------------------------------------------

  /** The state of an endfix that is active. */
  ghost predicate EndfixState(l: Layout, m: seq<Byte>, item: Item) {
    exists k: nat :: On(m, l.leaf, k) && item == l.nfa(k)
  }

  /** The state of a leftfix that is active and not transient, or its lag byte. */
  ghost predicate LeftfixState(l: Layout, m: seq<Byte>, item: Item) {
    && l.leftIter.Some?
    && exists k: nat :: k in l.leftIter.value && On(m, l.left, k) &&
         (item == l.nfa(k + l.leftfixBegin) || item == Raw(l.lag(k), 1))
  }

  /** A slot that is valid. */
  ghost predicate ValidSlot(s: Som, m: seq<Byte>, item: Item) {
    exists k: nat :: On(m, s.valid, k) && item == s.Slot(k)
  }

  ghost predicate Fixed(l: Layout, offset: nat, item: Item) {
    var n := Min(offset % 0x1_0000_0000, l.historyRequired);
    || item == Raw(l.status, 1) || item == Raw(l.history + l.historyRequired - n, n)
    || item in {l.roles, l.leaf, l.left, l.longLit, l.groups, l.exhausted, l.logical, l.combinations}
    || (offset <= l.anchoredDistance && item == l.anchor)
    || (l.som.Some? && item in {l.som.value.writable, l.som.value.valid})
  }

  /** Exactly these parts are in the compressed form, and nothing of a transient leftfix. */
  lemma PlanExact(l: Layout, offset: nat, m: seq<Byte>, item: Item)
    requires l.Shaped()
    ensures item in Plan(l, offset, m) <==>
            || Fixed(l, offset, item) || EndfixState(l, m, item) || LeftfixState(l, m, item)
            || (l.som.Some? && ValidSlot(l.som.value, m, item))
  {
    assert item in Plan(l, offset, m) <==>
             item in Front(l) + Middle(l, offset) + SomBits(l) || item in Nfas(l, m) || item in Lefts(l, m) || item in Slots(l, m);
    FixedExact(l, offset, item);
    hide KeyOn, KeyParts, Front, Middle, SomBits, Fixed;
    EndfixesExact(l, m, item);
    if l.leftIter.Some? {
      LeftfixesExact(l, m, item);
    }
    if l.som.Some? {
      SlotsExact(l, m, item);
    }
  }

  lemma FixedExact(l: Layout, offset: nat, item: Item)
    ensures item in Front(l) + Middle(l, offset) + SomBits(l) <==> Fixed(l, offset, item)
  {
  }

  lemma EndfixesExact(l: Layout, m: seq<Byte>, item: Item)
    requires l.Shaped()
    ensures item in KeyParts(l, Endfixes, m, 0) <==> EndfixState(l, m, item)
  {
    assert l.Shaped();
    hide KeyOn, KeyParts;
    if item in KeyParts(l, Endfixes, m, 0) {
      var k := KeyOfPart(l, Endfixes, m, 0, item);
    }
    if EndfixState(l, m, item) {
      var k: nat :| On(m, l.leaf, k) && item == l.nfa(k);
      KeyPartIn(l, Endfixes, m, 0, k, item);
    }
  }

  lemma LeftfixesExact(l: Layout, m: seq<Byte>, item: Item)
    requires l.Shaped() && l.leftIter.Some?
    ensures item in KeyParts(l, Leftfixes, m, 0) <==> LeftfixState(l, m, item)
  {
    assert l.Shaped();
    hide KeyOn, KeyParts;
    if item in KeyParts(l, Leftfixes, m, 0) {
      var k := KeyOfPart(l, Leftfixes, m, 0, item);
    }
    if LeftfixState(l, m, item) {
      var k: nat :| k in l.leftIter.value && On(m, l.left, k) &&
                    (item == l.nfa(k + l.leftfixBegin) || item == Raw(l.lag(k), 1));
      KeyPartIn(l, Leftfixes, m, 0, k, item);
    }
  }

  lemma SlotsExact(l: Layout, m: seq<Byte>, item: Item)
    requires l.Shaped() && l.som.Some?
    ensures item in KeyParts(l, SomSlots, m, 0) <==> ValidSlot(l.som.value, m, item)
  {
    assert l.Shaped();
    hide KeyOn, KeyParts;
    hide Som.Slot;
    var s := l.som.value;
    if item in KeyParts(l, SomSlots, m, 0) {
      var k := KeyOfPart(l, SomSlots, m, 0, item);
    }
    if ValidSlot(s, m, item) {
      var k: nat :| On(m, s.valid, k) && item == s.Slot(k);
      KeyPartIn(l, SomSlots, m, 0, k, item);
    }
  }

  lemma {:induction false} KeyOfPart(l: Layout, w: Walk, m: seq<Byte>, from: nat, item: Item) returns (k: nat)
    requires l.Shaped() && (w.SomSlots? ==> l.som.Some?) && item in KeyParts(l, w, m, from)
    ensures Visits(l, w, m, k) && item in Parts(l, w, k)
    decreases StreamPlan.Index(l, w).total - from
  {
    hide Visits, Parts, Layout.Shaped;
    if Visits(l, w, m, from) && item in Parts(l, w, from) {
      k := from;
    } else {
      k := KeyOfPart(l, w, m, from + 1, item);
    }
  }

  lemma RestoredItem(m: seq<Byte>, src: seq<Byte>, items: seq<Item>, item: Item)
    requires AllRestored(m, src, items) && item in items
    ensures SameItem(src, m, item)
  {
    hide MultibitCodec.Restored, KeyOn;
    assert item.Restored(m, src);
    if item.Multi? {
      forall k: nat
        ensures KeyOn(src, item.at, item.total, k) <==> KeyOn(m, item.at, item.total, k)
      {
        RestoredKeys(m, src, item.at, item.total, k);
      }
    }
  }

  lemma {:induction false} KeyPartIn(l: Layout, w: Walk, m: seq<Byte>, from: nat, k: nat, item: Item)
    requires l.Shaped() && (w.SomSlots? ==> l.som.Some?) && from <= k && Visits(l, w, m, k)
    requires item in Parts(l, w, k)
    ensures item in KeyParts(l, w, m, from)
    decreases k - from
  {
    hide Visits, Parts, Layout.Shaped;
    VisitsBelow(l, w, m, k);
    if from < k {
      KeyPartIn(l, w, m, from + 1, k, item);
    }
  }

  lemma VisitsBelow(l: Layout, w: Walk, m: seq<Byte>, k: nat)
    requires l.Shaped() && (w.SomSlots? ==> l.som.Some?) && Visits(l, w, m, k)
    ensures k < StreamPlan.Index(l, w).total
  {
  }

  lemma RestoredSurvives(l: Layout, offset: nat, src: seq<Byte>, m: seq<Byte>)
    requires l.Shaped() && AllRestored(m, src, Plan(l, offset, src))
    ensures Survives(l, offset, src, m)
  {
    hide Layout.Shaped, AllRestored, Plan, KeyOn, Item.Restored, Fixed, SameItem, SameBytes, FixedSurvive, On;
    FixedParts(l, offset, src, m);
    forall k: nat | On(src, l.leaf, k)
      ensures SameItem(src, m, l.nfa(k))
    {
      assert EndfixState(l, src, l.nfa(k));
      TravelsSurvives(l, offset, src, m, l.nfa(k));
    }
    if l.leftIter.Some? {
      forall k: nat | k in l.leftIter.value && On(src, l.left, k)
        ensures SameItem(src, m, l.nfa(k + l.leftfixBegin)) && SameBytes(src, m, l.lag(k), 1)
      {
        assert LeftfixState(l, src, l.nfa(k + l.leftfixBegin)) && LeftfixState(l, src, Raw(l.lag(k), 1));
        TravelsSurvives(l, offset, src, m, l.nfa(k + l.leftfixBegin));
        TravelsSurvives(l, offset, src, m, Raw(l.lag(k), 1));
        SameRaw(src, m, Raw(l.lag(k), 1));
      }
    }
    if l.som.Some? {
      var s := l.som.value;
      forall k: nat | On(src, s.valid, k)
        ensures SameBytes(src, m, s.location + k * s.width, s.width)
      {
        var slot := s.Slot(k);
        assert ValidSlot(s, src, slot);
        TravelsSurvives(l, offset, src, m, slot);
        SameRaw(src, m, slot);
      }
    }
  }

  lemma SameRaw(a: seq<Byte>, b: seq<Byte>, item: Item)
    requires item.Raw? && SameItem(a, b, item)
    ensures SameBytes(a, b, item.at, item.len)
  {
  }

  lemma TravelsSurvives(l: Layout, offset: nat, src: seq<Byte>, m: seq<Byte>, item: Item)
    requires l.Shaped() && AllRestored(m, src, Plan(l, offset, src))
    requires EndfixState(l, src, item) || LeftfixState(l, src, item) || (l.som.Some? && ValidSlot(l.som.value, src, item))
    ensures SameItem(src, m, item)
  {
    hide Layout.Shaped, AllRestored, Plan, EndfixState, LeftfixState, ValidSlot, Fixed, SameItem;
    PlanExact(l, offset, src, item);
    RestoredItem(m, src, Plan(l, offset, src), item);
  }

  lemma FixedParts(l: Layout, offset: nat, src: seq<Byte>, m: seq<Byte>)
    requires l.Shaped() && AllRestored(m, src, Plan(l, offset, src))
    ensures FixedSurvive(l, offset, src, m)
  {
    hide Layout.Shaped, AllRestored, SameItem, Plan, SameBytes, EndfixState, LeftfixState, ValidSlot;
    var n := Min(offset % 0x1_0000_0000, l.historyRequired);
    forall item | Fixed(l, offset, item)
      ensures SameItem(src, m, item)
    {
      PlanExact(l, offset, src, item);
      RestoredItem(m, src, Plan(l, offset, src), item);
    }
    SameRaw(src, m, Raw(l.status, 1));
    SameRaw(src, m, Raw(l.history + l.historyRequired - n, n));
  }

  /** Some part that is checked against the limit reaches the very end of the compressed form. */
  ghost predicate CheckedToTheEnd(l: Layout, offset: nat, m: seq<Byte>)
    requires l.Shaped()
  {
    var plan := Plan(l, offset, m);
    exists i: nat :: i < |plan| && plan[i].Checked(m) && EndOf(m, plan, i) == |Compressed(l, offset, m)|
  }

  ghost predicate EveryShortSizeRefused(l: Layout, offset: nat, m: seq<Byte>)
    requires l.Shaped()
  {
    forall n: nat :: n < |Compressed(l, offset, m)| ==> !WithinLimit(m, Plan(l, offset, m), n)
  }

  /** With the whole form in memory, every smaller stated size is refused if and only if the form ends in a checked
      part. */
  lemma ShortSizeRefusedIff(l: Layout, offset: nat, m: seq<Byte>)
    requires Sound(l, offset, m)
    ensures EveryShortSizeRefused(l, offset, m) <==> CheckedToTheEnd(l, offset, m)
  {
    hide Plan, Images, Item.Checked, AllIn, AllApart, Layout.Shaped;
    var plan, whole := Plan(l, offset, m), |Compressed(l, offset, m)|;
    WholeAccepted(l, offset, m);
    StatusFirst(l, offset, m);
    if CheckedToTheEnd(l, offset, m) {
      forall n: nat | n < whole
        ensures !WithinLimit(m, plan, n)
      {
      }
    } else {
      assert WithinLimit(m, plan, whole - 1);
    }
  }

  lemma StatusFirst(l: Layout, offset: nat, m: seq<Byte>)
    requires Sound(l, offset, m)
    ensures |Compressed(l, offset, m)| >= 9
  {
    hide AllApart, Layout.Shaped, Middle, Nfas, Lefts, SomBits, Slots;
    var plan, status := Plan(l, offset, m), Raw(l.status, 1);
    assert plan[..1] == [status] && plan[0] == status;
    ImagesPrefix(m, plan[..1], plan);
    ImagesOne(m, [], status);
    assert [] + [status] == [status];
  }

  /** A form that ends in an unchecked part is accepted with its last byte cut off. */
  lemma UncheckedTail(l: Layout, offset: nat, m: seq<Byte>)
    requires Sound(l, offset, m)
    requires var plan := Plan(l, offset, m); plan != [] && var last := plan[|plan| - 1]; !last.Checked(m) && last.Image(m) != []
    ensures !EveryShortSizeRefused(l, offset, m)
  {
    hide Plan, Item.Checked, Item.Image, AllIn, AllApart, Layout.Shaped;
    var plan := Plan(l, offset, m);
    var n := |plan| - 1;
    ImagesOne(m, plan[..n], plan[n]);
    assert plan[..n] + [plan[n]] == plan;
    forall i: nat | i < |plan| && plan[i].Checked(m)
      ensures EndOf(m, plan, i) < |Compressed(l, offset, m)|
    {
      ImagesPrefix(m, plan[..i + 1], plan[..n]);
    }
    ShortSizeRefusedIff(l, offset, m);
  }

  const NO_KEYS := Multi(1, 0, 0)
  const NOTHING := Raw(1, 0)

  /** One status byte and one multibit of eight combination keys. */
  const SMALL := Layout(0, 0, 0, NO_KEYS, NO_KEYS, NO_KEYS, NOTHING, NOTHING, NOTHING, 1, NO_KEYS, NO_KEYS,
                        Multi(1, 8, 1), _ => NOTHING, 0, None, _ => 0, None)

  lemma SmallPlan(m: seq<Byte>)
    ensures SMALL.Shaped() && Plan(SMALL, 1, m)
         == [Raw(0, 1), NO_KEYS, NO_KEYS, NO_KEYS, NOTHING, NOTHING, Raw(1, 0), NO_KEYS, NO_KEYS, Multi(1, 8, 1)]
  {
    assert KeyParts(SMALL, Endfixes, m, 0) == [];
  }

  /** Such a stream, compressed to ten bytes, is also accepted from nine. */
  lemma TruncationAccepted()
    ensures Sound(SMALL, 1, [0, 255]) && !EveryShortSizeRefused(SMALL, 1, [0, 255])
  {
    hide Plan, Layout.Shaped, EveryShortSizeRefused;
    var m: seq<Byte> := [0, 255];
    SmallPlan(m);
    var last := Multi(1, 8, 1);
    assert last.Image(m) == [255] && !last.Checked(m);
    UncheckedTail(SMALL, 1, m);
  }

  // Forms cut short ---------------------------------------------------------------------------------------------

  /** A stream that continues a cut form and is accepted from its known bytes. */
  ghost predicate Continues(l: Layout, offset: nat, m: seq<Byte>, n: nat, b: seq<Byte>) {
    && Sound(l, offset, m) && Sound(l, offset, b) && |b| == |m|
    && Begins(Compressed(l, offset, b), Compressed(l, offset, m), n) && WithinLimit(b, Plan(l, offset, b), n)
  }

  /** A cut is refused whatever follows, or else some bytes behind it make it accepted. */
  lemma CutRefusedOrContinues(l: Layout, offset: nat, m: seq<Byte>, n: nat)
    requires Sound(l, offset, m) && n < |Compressed(l, offset, m)| && !CutRefused(l, offset, m, n)
    ensures exists b :: Continues(l, offset, m, n, b)
  {
    hide CutRefused, Sound, Compressed, Plan, WithinLimit;
    var b := CutContinues(l, offset, m, n);
    assert Continues(l, offset, m, n, b);
  }

  /** Expanding those bytes succeeds. */
  method ExpandContinued(l: Layout, offset: nat, ghost m: seq<Byte>, n: nat, b: seq<Byte>, memory: seq<Byte>)
    returns (result: Result)
    requires Continues(l, offset, m, n, b) && |memory| == |b|
    ensures result == Success
  {
    hide Plan, WithinLimit, AllRestored, AllIn, AllApart, Layout.Shaped, CutRefused, UntouchedElsewhere;
    var buf := Compressed(l, offset, b);
    var o, body;
    result, o, body := ExpandStream(l, memory, buf, n, offset, b);
  }

  /** One status byte, eight start-of-match slots of one byte each, and nothing else. */
  const SLOTTED := Layout(0, 0, 0, NO_KEYS, NO_KEYS, NO_KEYS, NOTHING, NOTHING, NOTHING, 1, NO_KEYS, NO_KEYS, NO_KEYS,
                          _ => NOTHING, 0, None, _ => 0, Some(Som(NO_KEYS, Multi(1, 8, 1), 2, 1)))

  const ONE_VALID: seq<Byte> := [0, 1, 7, 0, 0, 0, 0, 0, 0, 0]

  lemma SlottedPlan()
    ensures SLOTTED.Shaped()
    ensures Plan(SLOTTED, 1, ONE_VALID)
         == [Raw(0, 1), NO_KEYS, NO_KEYS, NO_KEYS, NOTHING, NOTHING, Raw(1, 0), NO_KEYS, NO_KEYS, NO_KEYS, NO_KEYS,
             Multi(1, 8, 1), Raw(2, 1)]
    ensures |Stage(SLOTTED, 1, ONE_VALID, 4)| == 10 && |Stage(SLOTTED, 1, ONE_VALID, 5)| == 12
  {
    hide Front, Middle, KeyParts;
    SlottedFixed();
    OneSlot();
  }

  lemma SlottedFixed()
    ensures SLOTTED.Shaped() && Front(SLOTTED) == [Raw(0, 1), NO_KEYS, NO_KEYS, NO_KEYS, NOTHING]
    ensures Middle(SLOTTED, 1) == [NOTHING, Raw(1, 0), NO_KEYS, NO_KEYS, NO_KEYS]
    ensures KeyParts(SLOTTED, Endfixes, ONE_VALID, 0) == []
  {
  }

  lemma OneSlot()
    ensures SLOTTED.Shaped() && KeyParts(SLOTTED, SomSlots, ONE_VALID, 0) == [Raw(2, 1)]
  {
    forall k: nat | k < 8
      ensures Visits(SLOTTED, SomSlots, ONE_VALID, k) <==> k == 0
    {
      Bits.BitPow2(0, k);
      assert ONE_VALID[1..][k / 8] == 1;
    }
    NoParts(SLOTTED, SomSlots, ONE_VALID, 1);
  }

  lemma {:induction false} PlanImages(i: nat)
    requires i <= 13
    ensures |Images(ONE_VALID, Plan(SLOTTED, 1, ONE_VALID)[..i])|
         == (if i == 0 then 0 else if i < 12 then 1 else if i == 12 then 2 else 3)
    decreases i
  {
    hide Plan, Item.Image, Images;
    SlottedPlan();
    var plan := Plan(SLOTTED, 1, ONE_VALID);
    if i == 0 {
      assert plan[..0] == [];
      NoImages();
    } else {
      PlanImages(i - 1);
      PartSize(i - 1);
      assert plan[..i] == plan[..i - 1] + [plan[i - 1]];
      ImagesOne(ONE_VALID, plan[..i - 1], plan[i - 1]);
    }
  }

  lemma NoImages()
    ensures Images(ONE_VALID, []) == []
  {
  }

  lemma PartSize(i: nat)
    requires i < 13
    ensures i < |Plan(SLOTTED, 1, ONE_VALID)|
    ensures |Plan(SLOTTED, 1, ONE_VALID)[i].Image(ONE_VALID)| == if i == 0 || i >= 11 then 1 else 0
  {
    hide Plan;
    SlottedPlan();
    var plan := Plan(SLOTTED, 1, ONE_VALID);
    assert plan[i].Raw? || plan[i] == NO_KEYS || plan[i] == Multi(1, 8, 1);
  }

  /** Every smaller size is refused while the form of eleven bytes stays in memory; but its first nine bytes, followed by
      other bytes, are not always refused. */
  lemma CheckedTailCut()
    ensures Sound(SLOTTED, 1, ONE_VALID) && EveryShortSizeRefused(SLOTTED, 1, ONE_VALID)
    ensures !CutRefused(SLOTTED, 1, ONE_VALID, 9) && exists b :: Continues(SLOTTED, 1, ONE_VALID, 9, b)
  {
    SlottedSound();
    SlottedCuts();
    CutRefusedOrContinues(SLOTTED, 1, ONE_VALID, 9);
  }

  lemma SlottedSound()
    ensures Sound(SLOTTED, 1, ONE_VALID)
  {
    hide Plan, Item.In, Layout.Shaped;
    SlottedPlan();
    var plan := Plan(SLOTTED, 1, ONE_VALID);
    forall i | 0 <= i < |plan|
      ensures plan[i].In(ONE_VALID)
    {
      SlottedPlaces(i);
    }
    forall i, j | 0 <= i < j < |plan|
      ensures Apart(plan[i], plan[j])
    {
      SlottedPlaces(i);
      SlottedPlaces(j);
    }
  }

  ghost predicate SlottedPlace(i: nat)
    requires SLOTTED.Shaped() && i < |Plan(SLOTTED, 1, ONE_VALID)|
  {
    var item := Plan(SLOTTED, 1, ONE_VALID)[i];
    && item.In(ONE_VALID) && item.at == (if i == 0 then 0 else if i < 12 then 1 else 2)
    && item.End() == (if i < 11 then 1 else if i == 11 then 2 else 3)
  }

  lemma SlottedPlaces(i: nat)
    requires i < 13
    ensures SLOTTED.Shaped() && i < |Plan(SLOTTED, 1, ONE_VALID)| && SlottedPlace(i)
  {
    hide Plan, Layout.Shaped;
    SlottedPlan();
    var item := Plan(SLOTTED, 1, ONE_VALID)[i];
    assert item == if i == 0 then Raw(0, 1) else if i == 11 then Multi(1, 8, 1) else if i == 12 then Raw(2, 1)
                   else if i == 4 || i == 5 || i == 6 then NOTHING else NO_KEYS;
  }

  lemma SlottedCuts()
    ensures Sound(SLOTTED, 1, ONE_VALID) && EveryShortSizeRefused(SLOTTED, 1, ONE_VALID)
    ensures !CutRefused(SLOTTED, 1, ONE_VALID, 9) && 9 < |Compressed(SLOTTED, 1, ONE_VALID)|
  {
    SlottedSound();
    SlottedPlan();
    hide Plan, Images, Sound, Stage, Layout.Shaped, EveryShortSizeRefused;
    var m, plan := ONE_VALID, Plan(SLOTTED, 1, ONE_VALID);
    PlanImages(13);
    PlanImages(12);
    PlanImages(11);
    assert plan[..13] == plan;
    assert plan[12].Checked(m) && EndOf(m, plan, 12) == |Compressed(SLOTTED, 1, m)|;
    ShortSizeRefusedIff(SLOTTED, 1, m);
    forall c: nat
      ensures !RefusedAt(SLOTTED, 1, m, 9, c)
    {
      if CutAt(m, plan, 9, c) {
        assert CutAt(m, plan, 9, 11);
        CutUnique(m, plan, 9, c, 11);
      }
    }
  }

  // Live history ------------------------------------------------------------------------------------------------

  /** The live history of the stream is in the memory. */
  ghost predicate LiveSurvives(l: Layout, offset: nat, src: seq<Byte>, m: seq<Byte>) {
    var n := Min(l.historyRequired, offset);
    SameBytes(src, m, l.history + l.historyRequired - n, n)
  }

  /** What expanding promises of the memory. */
  ghost predicate ExpandedOver(l: Layout, offset: nat, src: seq<Byte>, memory: seq<Byte>, m: seq<Byte>)
    requires l.Shaped()
  {
    AllRestored(m, src, Plan(l, offset, src)) && UntouchedElsewhere(memory, m, Plan(l, offset, src))
  }

  /** The live history survives over every memory if and only if the 32-bit cut of the offset does not bite. */
  lemma LiveHistoryIff(l: Layout, offset: nat, src: seq<Byte>)
    requires Sound(l, offset, src) && l.history + l.historyRequired <= |src|
    requires forall p: nat :: l.history <= p < l.history + l.historyRequired - HistoryCopied(l, offset) ==>
               Outside(p, Plan(l, offset, src))
    ensures (forall memory, m :: ExpandedOver(l, offset, src, memory, m) ==> LiveSurvives(l, offset, src, m)) <==>
            offset < 0x1_0000_0000 || offset % 0x1_0000_0000 >= l.historyRequired
  {
    assert l.Shaped();
    HistoryWholeIff(l, offset) by { HistoryBound(l); }
    if offset < 0x1_0000_0000 || offset % 0x1_0000_0000 >= l.historyRequired {
      forall memory, m | ExpandedOver(l, offset, src, memory, m)
        ensures LiveSurvives(l, offset, src, m)
      {
        RestoredSurvives(l, offset, src, m);
        CopiedSurvives(l, offset, src, m);
      }
    } else {
      var m := DeadByte(l, offset, src);
      assert ExpandedOver(l, offset, src, m, m);
    }
  }

  lemma HistoryBound(l: Layout)
    requires l.Shaped()
    ensures l.historyRequired < 0x1_0000_0000
  {
  }

  lemma CopiedSurvives(l: Layout, offset: nat, src: seq<Byte>, m: seq<Byte>)
    requires l.Shaped() && Survives(l, offset, src, m) && HistoryCopied(l, offset) == Min(l.historyRequired, offset)
    ensures LiveSurvives(l, offset, src, m)
  {
    hide SameItem, Layout.Shaped, EndfixesSurvive, LeftfixesSurvive, SlotsSurvive;
  }

  /** Memory that differs from the stream in the first live byte only. */
  lemma DeadByte(l: Layout, offset: nat, src: seq<Byte>) returns (m: seq<Byte>)
    requires Sound(l, offset, src) && l.history + l.historyRequired <= |src|
    requires HistoryCopied(l, offset) < Min(l.historyRequired, offset)
    requires Outside(l.history + l.historyRequired - Min(l.historyRequired, offset), Plan(l, offset, src))
    ensures ExpandedOver(l, offset, src, m, m) && !LiveSurvives(l, offset, src, m)
  {
    hide Plan, Layout.Shaped, Item.Restored, Item.In, Item.Image;
    var n := Min(l.historyRequired, offset);
    var p := l.history + l.historyRequired - n;
    m := src[p := if src[p] == 0 then 1 else 0];
    var plan := Plan(l, offset, src);
    forall i | 0 <= i < |plan|
      ensures plan[i].Restored(m, src)
    {
      SameItemInBoth(src, m, plan[i]);
    }
    assert src[p..p + n][0] != m[p..p + n][0];
  }
}
