/** One template, three instances: the size of a compressed stream, compressing it, and expanding it. */
module StreamCodec {
  import opened Common
  import opened Crc32c
  import opened MultibitCodec
  import opened DatabaseFormat
  import opened StreamPlan

  datatype Mode = Size | Compress | Expand

  /** A run of the template over a stream. */
  class Codec {
    const mode: Mode
    const layout: Layout
    /** The stream. */
    var offset: nat
    var body: seq<Byte>
    /** The buffer: what has been written, or what is to be read. */
    var buf: seq<Byte>
    const bufSize: nat
    var currOffset: nat

    /** The stream that is or was compressed, and the parts dealt with so far. */
    ghost const srcOffset: nat
    ghost const src: seq<Byte>
    ghost var done: seq<Item>
    /** When expanding: how much of the buffer is the compressed form, what the stream's memory held before, and the
        part at which the known bytes ended. */
    ghost const known: nat
    ghost const memory: seq<Byte>
    ghost var cut: nat

    ghost function Goal(): seq<Item>
      requires layout.Shaped()
    {
      Plan(layout, srcOffset, src)
    }

    ghost function Form(): seq<Byte>
      requires layout.Shaped()
    {
      Compressed(layout, srcOffset, src)
    }

    /** The buffer holds the whole form, or as much of it as the stated size; any bytes may follow. */
    ghost predicate Supplied()
      reads this
    {
      && Sound(layout, srcOffset, src) && Begins(buf, Form(), known) && |body| == |src|
      && (known == |Form()| || known == bufSize)
    }

    /** All parts so far are dealt with. */
    ghost predicate Ready()
      reads this
    {
      && Sound(layout, srcOffset, src) && done <= Goal() && offset == srcOffset
      && currOffset == 8 + |Images(src, done)|
      && match mode
         case Size => body == src
         case Compress => body == src && buf == Stored(offset, 8) + Images(src, done) && |Form()| <= bufSize
         case Expand => Supplied() && currOffset <= known && AllRestored(body, src, done)
                        && WithinLimit(src, done, bufSize) && UntouchedElsewhere(memory, body, done)
    }

    /** Expanding has gone beyond the stated size and the known bytes, over multibits only. */
    ghost predicate Lost()
      reads this
    {
      && mode.Expand? && Supplied() && known < |Form()| && offset == srcOffset
      && done <= Goal() && currOffset > bufSize && Behind(body, src, done, cut, bufSize)
    }

    /** What failing means: the buffer does not hold the form, or a checked part ends beyond the limit. */
    ghost predicate Overrun() {
      && layout.Shaped() && mode.Expand?
      && (known < |Form()| || !WithinLimit(src, Goal(), bufSize))
    }

    constructor (mode: Mode, layout: Layout, offset: nat, body: seq<Byte>, buf: seq<Byte>, bufSize: nat,
                 ghost srcOffset: nat, ghost src: seq<Byte>, ghost known: nat)
      ensures this.mode == mode && this.layout == layout && this.offset == offset && this.body == memory == body
      ensures this.buf == buf && this.bufSize == bufSize && this.srcOffset == srcOffset && this.src == src
      ensures this.known == known && currOffset == 0 && done == []
    {
      this.mode, this.layout, this.offset, this.body, this.buf, this.bufSize := mode, layout, offset, body, buf, bufSize;
      this.srcOffset, this.src, this.known, this.memory := srcOffset, src, known, body;
      currOffset, done, cut := 0, [], 0;
    }

    /** Where a run starts. */
    ghost predicate Fresh()
      reads this
    {
      && currOffset == 0 && done == [] && Sound(layout, srcOffset, src)
      && match mode
         case Size => offset == srcOffset && body == src
         case Compress => offset == srcOffset && body == src && buf == [] && |Form()| <= bufSize
         case Expand => Supplied() && body == memory
    }

    /** The offset field. */
    method CopyOffset() returns (ok: bool)
      requires Fresh()
      modifies this
      ensures ok ==> Ready() && done == []
      ensures !ok ==> Overrun() && bufSize < 8
    {
      hide Plan, AllIn, AllApart, Stored, Layout.Shaped, LittleEndian, Begins, Item.Image, Item.Restored, Item.Checked;
      NoneTouched(body);
      if mode.Compress? {
        buf := buf + Stored(offset, 8);
      } else if mode.Expand? {
        if currOffset + 8 > bufSize {
          return false;
        }
        OffsetBack(layout, srcOffset, src, buf, known, bufSize);
        offset := LittleEndian(Bytes(buf, 0, 8));
      }
      currOffset := currOffset + 8;
      return true;
    }

    /** Bytes copied as they are. Beyond the stated size they are refused. */
    method Copy(item: Item) returns (ok: bool)
      requires (Ready() && done + [item] <= Goal()) || Lost()
      requires item.Raw?
      modifies this
      ensures ok ==> Ready() && done == old(done) + [item]
      ensures ok ==> !old(Lost())
      ensures !ok ==> Overrun()
    {
      hide Plan, AllIn, AllApart, Stored, Layout.Shaped, Images, WithinLimit, AllRestored, UntouchedElsewhere, Begins, Behind,
           Compressed, SameOutside;
      var n := item.len;
      if mode.Expand? {
        if currOffset + n > bufSize {
          if Ready() {
            NextImage(src, done, item, Goal());
            ItemIn(src, done, item, Goal());
            LimitBroken(src, done, item, Goal(), bufSize);
          }
          return false;
        }
      }
      ghost var goal := Goal();
      NextImage(src, done, item, goal);
      ItemIn(src, done, item, goal);
      if mode.Compress? {
        buf := buf + body[item.at..item.at + n];
      } else if mode.Expand? {
        InBuffer(layout, offset, src, done, item, buf, known, bufSize);
        LimitOne(src, done, item, bufSize);
        ghost var was := body;
        body := Put(body, item.at, Bytes(buf, currOffset, n));
        PutBack(was, body, src, item, Bytes(buf, currOffset, n));
        KeepRestored(was, body, src, done, item, goal);
        StillUntouched(memory, was, body, done, item);
      }
      currOffset := currOffset + n;
      done := done + [item];
      return true;
    }

    /** A multibit. */
    method CopyMultibit(item: Item) returns (ok: bool)
      requires Ready() || Lost()
      requires layout.Shaped() && done + [item] <= Goal() && item.Multi?
      modifies this
      ensures ok ==> (Ready() || Lost()) && done == old(done) + [item]
      ensures ok && old(Lost()) ==> Lost()
      ensures !ok ==> Overrun()
    {
      hide Plan, AllIn, AllApart, Stored, Layout.Shaped, Images, WithinLimit, AllRestored, UntouchedElsewhere, Begins, Behind,
           Compressed, SameOutside, Fits, Unchecked, MultibitCodec.Image, MultibitCodec.Restored, CutShort;
      ghost var goal := Goal();
      NextImage(src, done, item, goal);
      ItemIn(src, done, item, goal);
      FitsFlat(src, item);
      if mode.Expand? {
        ok := ReadMultibit(item);
        return;
      }
      var size;
      if mode.Size? {
        size := CompSize(body, item.at, item.total);
      } else {
        RoomLeft(layout, offset, src, done, item, bufSize);
        var comp;
        ok, comp := MultibitCodec.Compress(body, item.at, item.total, bufSize - currOffset);
        if !ok {
          assert false;
        }
        buf, size := buf + comp, |comp|;
      }
      currOffset := currOffset + size;
      done := done + [item];
      return true;
    }

    /** A multibit, read back. */
    method ReadMultibit(item: Item) returns (ok: bool)
      requires Ready() || Lost()
      requires mode.Expand? && layout.Shaped() && done + [item] <= Goal() && item.Multi? && item.In(src)
      modifies this
      ensures ok ==> (Ready() || Lost()) && done == old(done) + [item]
      ensures ok && old(Lost()) ==> Lost()
      ensures !ok ==> Overrun()
    {
      hide Plan, AllIn, AllApart, Stored, Layout.Shaped, Images, WithinLimit, AllRestored, UntouchedElsewhere, Begins, Behind,
           Compressed, SameOutside, Fits, Unchecked, MultibitCodec.Image, MultibitCodec.Restored, CutShort;
      ghost var goal, lost := Goal(), Lost();
      NextImage(src, done, item, goal);
      FitsFlat(src, item);
      ghost var here := if lost then 0 else Min(known - currOffset, |item.Image(src)|);
      if lost {
        NothingKnown(Tail(buf, currOffset), item.Image(src));
      } else {
        PartBegins(layout, offset, src, done, item, buf, known);
      }
      ghost var was := body;
      var size;
      ok, body, size :=
        Decompress(body, item.at, item.total, Tail(buf, currOffset), bufSize - currOffset, src, item.size, here);
      if !ok {
        if !lost && here == |item.Image(src)| {
          LimitBroken(src, done, item, goal, bufSize);
        } else {
          assert known < |Form()|;
        }
        return;
      }
      if lost {
        KeepBehind(was, body, src, done, cut, bufSize, item, goal);
      } else {
        KeepRestored(was, body, src, done, item, goal);
        if here == |item.Image(src)| {
          LimitOne(src, done, item, bufSize);
          StillUntouched(memory, was, body, done, item);
        } else {
          cut := |done|;
          NowBehind(body, src, done, item, bufSize);
        }
      }
      currOffset := currOffset + size;
      done := done + [item];
    }

    /** A fixed list of parts. */
    method CopyAll(items: seq<Item>) returns (ok: bool)
      requires Ready() || Lost()
      requires layout.Shaped() && (done + items <= Goal() || (Lost() && items != [] && items[0].Raw?))
      modifies this
      ensures ok ==> (Ready() || Lost()) && done == old(done) + items
      ensures ok && old(Lost()) ==> Lost() && (items == [] || items[0].Multi?)
      ensures ok && items != [] && AllRaw(items) ==> Ready()
      ensures !ok ==> Overrun()
    {
      hide Ready, Lost, Goal, Overrun, Layout.Shaped;
      ghost var lost := Lost();
      for i := 0 to |items|
        invariant layout.Shaped() && (Ready() || Lost()) && done == old(done) + items[..i] && (lost ==> Lost())
        invariant i > 0 ==> old(done) + items <= Goal()
        invariant i > 0 && lost ==> items[0].Multi?
        invariant i > 0 && AllRaw(items) ==> Ready()
      {
        assert items[..i + 1] == items[..i] + [items[i]];
        if items[i].Raw? {
          if old(done) + items <= Goal() {
            NextOf(old(done), items, i, Goal());
          }
          ok := Copy(items[i]);
        } else {
          NextOf(old(done), items, i, Goal());
          ok := CopyMultibit(items[i]);
        }
        if !ok {
          return;
        }
      }
      return true;
    }

    /** What is done and the parts of the keys from k on make up the front of the goal. */
    ghost predicate Due(w: Walk, k: nat, whole: seq<Item>)
      reads this
    {
      && layout.Shaped() && (w.SomSlots? ==> layout.som.Some?) && Index(layout, w) in done
      && done + KeyParts(layout, w, src, k) == whole <= Goal()
    }

    /** The keys below k bring no parts into a lost stream. */
    ghost predicate NoVisitsBelow(w: Walk, k: nat)
      reads this
    {
      && layout.Shaped() && (w.SomSlots? ==> layout.som.Some?)
      && forall i: nat :: i < k ==> !Visits(layout, w, body, i)
    }

    method CopyKey(w: Walk, k: nat, ghost whole: seq<Item>) returns (ok: bool)
      requires (Ready() && Due(w, k, whole)) || Lost()
      requires layout.Shaped() && (w.SomSlots? ==> layout.som.Some?) && k < Index(layout, w).total
      modifies this
      ensures ok && old(Ready() && Due(w, k, whole)) ==> Ready() && Due(w, k + 1, whole)
      ensures ok && old(Lost()) ==> Lost() && done == old(done) && body == old(body) && !Visits(layout, w, body, k)
      ensures !ok ==> Overrun()
    {
      hide Ready, Lost, Goal, Overrun, KeyParts, Visits, Layout.Shaped;
      ghost var due := Ready() && Due(w, k, whole);
      if due {
        KeyStep(layout, w, src, k);
        SameVisit(w, k);
      }
      RawParts(layout, w, k);
      if Visits(layout, w, body, k) {
        var parts := Parts(layout, w, k);
        if due {
          Regroup(whole, done, parts, KeyParts(layout, w, src, k + 1), Goal());
        }
        ok := CopyAll(parts);
      } else {
        assert [] + KeyParts(layout, w, src, k + 1) == KeyParts(layout, w, src, k + 1);
        ok := true;
      }
    }

    /** The parts of every key that is on, asking the stream for each. */
    method CopyKeys(w: Walk, ghost whole: seq<Item>) returns (ok: bool)
      requires (Ready() && Due(w, 0, whole)) || Lost()
      requires layout.Shaped() && (w.SomSlots? ==> layout.som.Some?)
      modifies this
      ensures ok && old(Ready() && Due(w, 0, whole)) ==> Ready() && done == whole
      ensures ok && old(Lost()) ==> Lost() && done == old(done) && NoVisitsBelow(w, Index(layout, w).total)
      ensures !ok ==> Overrun()
    {
      var total := Index(layout, w).total;
      hide Ready, Lost, Overrun, Due, Layout.Shaped, Visits;
      ghost var due, lost := Ready() && Due(w, 0, whole), Lost();
      for k := 0 to total
        invariant layout.Shaped()
        invariant due ==> Ready() && Due(w, k, whole)
        invariant lost ==> Lost() && done == old(done) && NoVisitsBelow(w, k)
      {
        ok := CopyKey(w, k, whole);
        if !ok {
          return;
        }
      }
      if due {
        AllDue(w, total, whole);
      }
      return true;
    }

    lemma AllDue(w: Walk, k: nat, whole: seq<Item>)
      requires Due(w, k, whole) && k >= Index(layout, w).total
      ensures done == whole
    {
      hide Goal;
      KeyEnd(layout, w, src, k);
    }

    /** At a stage of the plan, with the stream intact or lost. */
    ghost predicate At(n: nat)
      reads this
    {
      (Ready() || Lost()) && layout.Shaped() && done == Stage(layout, srcOffset, src, n)
    }

    /** The state of every active leftfix that is not transient. */
    method CopyLeftfixes() returns (ok: bool)
      requires At(3)
      modifies this
      ensures ok ==> At(4)
      ensures !ok ==> Overrun()
    {
      hide Ready, Lost, Overrun, Due, Layout.Shaped, Plan, Stage, KeyParts;
      NothingAdded(layout, srcOffset, src);
      if layout.leftIter.None? {
        return true;
      }
      ghost var g := Stage(layout, srcOffset, src, 4);
      ghost var lost := Lost();
      StartLeftfixes();
      ok := CopyKeys(Leftfixes, g);
      if ok && lost {
        NoneActive(Leftfixes);
      }
    }

    /** The start-of-match multibits. */
    method CopySomBits() returns (ok: bool)
      requires At(4)
      modifies this
      ensures ok ==> At(5)
      ensures !ok ==> Overrun()
    {
      Stages(layout, srcOffset, src);
      hide Ready, Lost, Overrun, Layout.Shaped, Plan, Stage, KeyParts;
      ok := CopyAll(SomBits(layout));
    }

    /** The start-of-match multibits and the slots that hold a valid value. */
    method CopySomInfo() returns (ok: bool)
      requires At(4)
      modifies this
      ensures ok ==> (Ready() && done == Goal()) || Strayed()
      ensures !ok ==> Overrun()
    {
      hide Ready, Lost, Overrun, Due, Layout.Shaped, Plan, Stage, KeyParts, NoVisitsBelow;
      if layout.som.None? {
        NoSom(layout, srcOffset, src);
        return true;
      }
      ok := CopySomBits();
      if !ok {
        return;
      }
      StartSlots();
      ok := CopyKeys(SomSlots, Goal());
    }

    /** Expanding has gone beyond the known bytes and found no fault: no slot was valid in what it read. */
    ghost predicate Strayed()
      reads this
    {
      && Lost() && done == Stage(layout, srcOffset, src, 5)
      && (layout.som.Some? ==> NoVisitsBelow(SomSlots, Index(layout, SomSlots).total))
    }

    /** The parts that every stream has; how much history, and whether anchored state, depends on the offset. */
    method CopyFixed() returns (ok: bool)
      requires Ready() && done == []
      modifies this
      ensures ok ==> At(2)
      ensures !ok ==> Overrun()
    {
      assert layout.Shaped();
      Stages(layout, srcOffset, src);
      OffsetKnown();
      hide Ready, Lost, Overrun, Layout.Shaped, Plan, Stage, KeyParts, Front, Middle;
      assert done + Front(layout) == Front(layout);
      ok := CopyAll(Front(layout));
      if !ok {
        return;
      }
      OffsetKnown();
      ok := CopyAll(Middle(layout, offset));
    }

    /** The state of every active endfix. */
    method CopyEndfixes() returns (ok: bool)
      requires At(2)
      modifies this
      ensures ok ==> At(3)
      ensures !ok ==> Overrun()
    {
      hide Ready, Lost, Overrun, Due, Layout.Shaped, Plan, Stage, KeyParts;
      ghost var g := Stage(layout, srcOffset, src, 3);
      ghost var lost := Lost();
      StartEndfixes();
      ok := CopyKeys(Endfixes, g);
      if ok && lost {
        NoneActive(Endfixes);
        NothingAdded(layout, srcOffset, src);
      }
    }

    /** The template. Zero means failure. Otherwise the result is the length of the compressed form and all parts are
        dealt with; or, expanding a form cut short, the cut is not one that is refused whatever follows. */
    method Run() returns (used: nat)
      requires Fresh()
      modifies this
      ensures used == 0 ==> Overrun()
      ensures !mode.Expand? || known == |Form()| ==>
                && (used == 0 <==> Overrun())
                && (used > 0 ==> used == |Form()| && Ready() && done == Goal())
      ensures mode.Expand? && known < |Form()| && CutRefused(layout, srcOffset, src, bufSize) ==> used == 0
    {
      assert layout.Shaped();
      hide Ready, Lost, Overrun, Layout.Shaped, Plan, Compressed, Sound, Stage, Fresh, CutRefused, Strayed;
      FreshFacts();
      var ok := CopyOffset();
      if !ok {
        return 0;
      }
      ok := CopyFixed();
      if !ok {
        return 0;
      }
      ok := CopyEndfixes();
      if !ok {
        return 0;
      }
      ok := CopyLeftfixes();
      if !ok {
        return 0;
      }
      ok := CopySomInfo();
      if !ok {
        return 0;
      }
      if Ready() && done == Goal() {
        Finished(Goal());
      } else {
        NotRefused();
      }
      return currOffset;
    }

    lemma FreshFacts()
      requires Fresh()
      ensures layout.Shaped()
    {
    }

    /** No engine of the compressed stream is active when none is in the lost one. */
    lemma NoneActive(w: Walk)
      requires Lost() && !w.SomSlots? && Stage(layout, srcOffset, src, 2) <= done
      requires NoVisitsBelow(w, Index(layout, w).total)
      ensures KeyParts(layout, w, src, 0) == []
    {
      hide Plan, AllIn, AllApart, Stored, Images, WithinLimit, MultibitCodec.Restored, KeyOn, Compressed, Begins,
           KeyParts, Layout.Shaped, CutShort;
      var item := Index(layout, w);
      assert done[2] == layout.leaf && done[3] == layout.left && done[4] == layout.longLit;
      assert layout.longLit.Raw? by { LongLitRaw(layout); }
      assert cut > 4;
      assert done[..cut][2] == layout.leaf && done[..cut][3] == layout.left;
      assert item.Restored(body, src);
      forall k: nat | k < item.total
        ensures !Visits(layout, w, src, k)
      {
        RestoredKeys(body, src, item.at, item.total, k);
        assert !Visits(layout, w, body, k);
      }
      NoParts(layout, w, src, 0);
    }

    /** A cut that was read over without a fault is not one that is always refused. */
    lemma NotRefused()
      requires Strayed()
      ensures mode.Expand? && known < |Form()| && !CutRefused(layout, srcOffset, src, bufSize)
    {
      hide Sound, Compressed, Begins, Layout.Shaped, Plan, Stage, NoVisitsBelow, Behind;
      StrayedFacts();
      if layout.som.Some? && cut + 1 == |done| {
        NoVisits(SomSlots, Index(layout, SomSlots).total);
        NoKnownKey(layout, srcOffset, src, body, done, cut, bufSize);
      }
      ReadOver(layout, srcOffset, src, body, done, cut, bufSize);
    }

    lemma StrayedFacts()
      requires Strayed()
      ensures layout.Shaped() && Behind(body, src, done, cut, bufSize) && done <= Goal()
    {
      hide Plan, Stage, Behind, Begins, Compressed, NoVisitsBelow;
    }

    lemma NoVisits(w: Walk, k: nat)
      requires NoVisitsBelow(w, k)
      ensures layout.Shaped() && (w.SomSlots? ==> layout.som.Some?)
      ensures forall i: nat :: i < k ==> !Visits(layout, w, body, i)
    {
    }

    /** Where the walks over keys start. */
    lemma StartEndfixes()
      requires layout.Shaped() && done == Stage(layout, srcOffset, src, 2)
      ensures Due(Endfixes, 0, Stage(layout, srcOffset, src, 3))
    {
      hide Plan, Stage, KeyParts, Layout.Shaped;
      Stages(layout, srcOffset, src);
    }

    lemma StartLeftfixes()
      requires layout.Shaped() && layout.leftIter.Some? && done == Stage(layout, srcOffset, src, 3)
      ensures Due(Leftfixes, 0, Stage(layout, srcOffset, src, 4))
    {
      hide Plan, Stage, KeyParts, Layout.Shaped;
      Stages(layout, srcOffset, src);
    }

    lemma StartSlots()
      requires layout.Shaped() && layout.som.Some? && done == Stage(layout, srcOffset, src, 5)
      ensures Due(SomSlots, 0, Goal())
    {
      hide Plan, Stage, KeyParts, Layout.Shaped;
      Stages(layout, srcOffset, src);
    }

    lemma OffsetKnown()
      requires Ready()
      ensures offset == srcOffset
    {
    }

    lemma Finished(goal: seq<Item>)
      requires Ready() && done == goal == Goal()
      ensures currOffset == |Compressed(layout, srcOffset, src)| > 0 && !Overrun()
    {
      hide Plan;
    }

    /** The walk sees the keys of the stream that was compressed. */
    lemma SameVisit(w: Walk, k: nat)
      requires Ready() && (w.SomSlots? ==> layout.som.Some?) && Index(layout, w) in done
      ensures Visits(layout, w, body, k) <==> Visits(layout, w, src, k)
    {
      hide Plan, AllIn, AllApart, Stored, Images, WithinLimit, MultibitCodec.Restored, KeyOn, Compressed;
      if mode.Expand? {
        var item := Index(layout, w);
        var i :| 0 <= i < |done| && done[i] == item;
        assert done[i].Restored(body, src);
        RestoredKeys(body, src, item.at, item.total, k);
      }
    }
  }

  lemma KeyStep(l: Layout, w: Walk, m: seq<Byte>, k: nat)
    requires l.Shaped() && (w.SomSlots? ==> l.som.Some?) && k < Index(l, w).total
    ensures KeyParts(l, w, m, k)
         == (if Visits(l, w, m, k) then Parts(l, w, k) else []) + KeyParts(l, w, m, k + 1)
  {
    hide Visits;
  }

  lemma KeyEnd(l: Layout, w: Walk, m: seq<Byte>, k: nat)
    requires l.Shaped() && (w.SomSlots? ==> l.som.Some?) && k >= Index(l, w).total
    ensures KeyParts(l, w, m, k) == []
  {
  }

  lemma Regroup(whole: seq<Item>, done: seq<Item>, parts: seq<Item>, rest: seq<Item>, goal: seq<Item>)
    requires whole == done + (parts + rest) && whole <= goal
    ensures done + parts <= goal && done + parts + rest == whole
  {
  }

  lemma NextOf(done: seq<Item>, items: seq<Item>, i: nat, goal: seq<Item>)
    requires i < |items| && done + items <= goal
    ensures done + items[..i] + [items[i]] == done + items[..i + 1] <= goal
  {
  }

  lemma FitsFlat(m: seq<Byte>, item: Item)
    requires item.Multi? && item.In(m)
    ensures IsFlat(item.total) ==> item.at + FlatSize(item.total) <= |m|
    ensures item.Image(m) == MultibitCodec.Image(m, item.at, item.total)
  {
  }

  /** Room for every image that is still to come. */
  lemma RoomLeft(l: Layout, offset: nat, m: seq<Byte>, done: seq<Item>, item: Item, room: nat)
    requires l.Shaped() && done + [item] <= Plan(l, offset, m) && |Compressed(l, offset, m)| <= room
    ensures 8 + |Images(m, done)| + |item.Image(m)| <= room
  {
    hide Plan, Images, Item.Image, Layout.Shaped;
    NextImage(m, done, item, Plan(l, offset, m));
  }

  lemma ItemIn(m: seq<Byte>, done: seq<Item>, item: Item, goal: seq<Item>)
    requires done + [item] <= goal && AllIn(m, goal)
    ensures item.In(m)
  {
    assert goal[|done|] == item;
  }

  /** The buffer from a position on. */
  function Tail(buf: seq<Byte>, p: nat): seq<Byte> {
    if p <= |buf| then buf[p..] else []
  }

  lemma NothingKnown(input: seq<Byte>, image: seq<Byte>)
    ensures Begins(input, image, 0)
  {
  }

  lemma NoneTouched(m: seq<Byte>)
    ensures UntouchedElsewhere(m, m, [])
  {
  }

  /** The known bytes of the next item. */
  lemma PartBegins(l: Layout, offset: nat, m: seq<Byte>, done: seq<Item>, item: Item, buf: seq<Byte>, known: nat)
    requires l.Shaped() && done + [item] <= Plan(l, offset, m) && Begins(buf, Compressed(l, offset, m), known)
    requires 8 + |Images(m, done)| <= known
    ensures var at := 8 + |Images(m, done)|;
            && Begins(Tail(buf, at), item.Image(m), Min(known - at, |item.Image(m)|))
            && known <= |Compressed(l, offset, m)|
            && (known == |Compressed(l, offset, m)| ==> known - at >= |item.Image(m)|)
  {
    hide Plan, Item.Image, Images, Stored, Layout.Shaped;
    NextImage(m, done, item, Plan(l, offset, m));
    var a, b, all := Stored(offset, 8) + Images(m, done), item.Image(m), Images(m, Plan(l, offset, m));
    var form, c := Compressed(l, offset, m), all[|Images(m, done + [item])|..];
    assert form == a + b + c;
    TailBegins(a, b, c, buf, known);
  }

  lemma TailBegins(a: seq<Byte>, b: seq<Byte>, c: seq<Byte>, buf: seq<Byte>, known: nat)
    requires Begins(buf, a + b + c, known) && |a| <= known
    ensures Begins(Tail(buf, |a|), b, Min(known - |a|, |b|))
  {
    var n := Min(known - |a|, |b|);
    assert buf[|a|..][..n] == buf[..known][|a|..|a| + n];
    assert b[..n] == (a + b + c)[..known][|a|..|a| + n];
  }

  /** A raw item that ends within the stated size is known. */
  lemma InBuffer(l: Layout, offset: nat, m: seq<Byte>, done: seq<Item>, item: Item, buf: seq<Byte>, known: nat, size: nat)
    requires l.Shaped() && done + [item] <= Plan(l, offset, m) && Begins(buf, Compressed(l, offset, m), known)
    requires 8 + |Images(m, done)| <= known && 8 + |Images(m, done)| + |item.Image(m)| <= size
    requires known == |Compressed(l, offset, m)| || known == size
    ensures var at := 8 + |Images(m, done)|;
            at + |item.Image(m)| <= known && Bytes(buf, at, |item.Image(m)|) == item.Image(m)
  {
    hide Plan, Item.Image, Images, Compressed, Layout.Shaped;
    PartBegins(l, offset, m, done, item, buf, known);
    var at, img := 8 + |Images(m, done)|, item.Image(m);
    KnownBytes(Tail(buf, at), img, |img|, 0, |img|);
    assert Bytes(Tail(buf, at), 0, |img|) == Bytes(buf, at, |img|);
    assert img[0..|img|] == img;
  }

  /** The cut is at the item that has just been read. */
  lemma NowBehind(m: seq<Byte>, src: seq<Byte>, done: seq<Item>, item: Item, n: nat)
    requires item.Multi? && AllRestored(m, src, done)
    requires 8 + |Images(src, done)| <= n < 8 + |Images(src, done)| + |item.Image(src)|
    requires CutShort(m, src, item.at, item.total, n - (8 + |Images(src, done)|))
    ensures Behind(m, src, done + [item], |done|, n)
  {
    hide Images, CutShort, Item.Image, AllRestored;
    var more := done + [item];
    assert more[..|done|] == done && more[..|done| + 1] == more;
    ImagesOne(src, done, item);
  }

  lemma NoneKnown(l: Layout, m: seq<Byte>, src: seq<Byte>, bytes: nat)
    requires l.Shaped() && l.som.Some? && var item := Index(l, SomSlots); CutShort(m, src, item.at, item.total, bytes)
    requires forall k: nat :: k < Index(l, SomSlots).total ==> !Visits(l, SomSlots, m, k)
    ensures !KnownKey(src, Index(l, SomSlots), bytes)
  {
    hide KeyOn, Visits, CutShort, Layout.Shaped;
    var item := Index(l, SomSlots);
    forall k: nat | IsFlat(item.total) && KeyOn(src, item.at, item.total, k)
      ensures k / 8 >= bytes
    {
      if k / 8 < bytes {
        KnownKeyOn(m, src, item, bytes, k);
        KeyBelow(m, item.at, item.total, k);
        OnIsVisited(l, m, k);
      }
    }
  }

  lemma OnIsVisited(l: Layout, m: seq<Byte>, k: nat)
    requires l.Shaped() && l.som.Some? && KeyOn(m, Index(l, SomSlots).at, Index(l, SomSlots).total, k)
    ensures Visits(l, SomSlots, m, k)
  {
  }

  lemma KeyBelow(m: seq<Byte>, at: nat, total: nat, k: nat)
    requires KeyOn(m, at, total, k)
    ensures k < total
  {
  }

  /** A valid slot is not known when none was visited. */
  lemma NoKnownKey(l: Layout, offset: nat, src: seq<Byte>, m: seq<Byte>, done: seq<Item>, c: nat, n: nat)
    requires l.Shaped() && l.som.Some? && done == Stage(l, offset, src, 5) && Behind(m, src, done, c, n)
    requires c + 1 == |done| && forall k: nat :: k < Index(l, SomSlots).total ==> !Visits(l, SomSlots, m, k)
    ensures NotKnown(src, done, c, n)
  {
    hide Images, AllRestored, Visits, Layout.Shaped, Stage, CutShort, KnownKey;
    LastIsValid(l, offset, src);
    NoneKnown(l, m, src, n - StartOf(src, done, c));
  }

  ghost predicate NotKnown(src: seq<Byte>, done: seq<Item>, c: nat, n: nat) {
    c < |done| && StartOf(src, done, c) <= n && !KnownKey(src, done[c], n - StartOf(src, done, c))
  }

  /** A cut behind which only multibits were read, none of them known to have a bit that matters. */
  lemma ReadOver(l: Layout, offset: nat, src: seq<Byte>, m: seq<Byte>, done: seq<Item>, c: nat, n: nat)
    requires l.Shaped() && done == Stage(l, offset, src, 5) && done <= Plan(l, offset, src)
    requires Behind(m, src, done, c, n) && (l.som.Some? && c + 1 == |done| ==> NotKnown(src, done, c, n))
    ensures !CutRefused(l, offset, src, n)
  {
    hide Images, AllRestored, Layout.Shaped, Plan, Stage, KnownKey, CutShort, ClearBefore;
    var plan := Plan(l, offset, src);
    SameCut(src, done, plan, n, c);
    assert forall i :: 0 <= i < |done| ==> plan[i] == done[i];
    FourthInFifth(l, offset, src);
    NoRootBit(m, src, done[c], n - StartOf(src, done, c));
    forall d: nat
      ensures !RefusedAt(l, offset, src, n, d)
    {
      if CutAt(src, plan, n, d) {
        CutUnique(src, plan, n, d, c);
      }
    }
  }

  lemma FourthInFifth(l: Layout, offset: nat, m: seq<Byte>)
    requires l.Shaped()
    ensures |Stage(l, offset, m, 4)| <= |Stage(l, offset, m, 5)|
  {
    hide Front, Middle, Nfas, Lefts;
  }

  lemma NoRootBit(m: seq<Byte>, src: seq<Byte>, item: Item, bytes: nat)
    requires item.Multi? && CutShort(m, src, item.at, item.total, bytes)
    ensures !KnownRootBit(src, item, bytes)
  {
    hide ClearBefore;
  }

  lemma SameCut(m: seq<Byte>, done: seq<Item>, goal: seq<Item>, n: nat, c: nat)
    requires done <= goal && CutAt(m, done, n, c)
    ensures CutAt(m, goal, n, c) && StartOf(m, goal, c) == StartOf(m, done, c)
  {
    assert done[..c] == goal[..c] && done[..c + 1] == goal[..c + 1];
  }

  lemma LongLitRaw(l: Layout)
    requires l.Shaped()
    ensures l.longLit.Raw?
  {
  }

  lemma {:induction false} NoParts(l: Layout, w: Walk, m: seq<Byte>, k: nat)
    requires l.Shaped() && (w.SomSlots? ==> l.som.Some?)
    requires forall i: nat :: k <= i < Index(l, w).total ==> !Visits(l, w, m, i)
    ensures KeyParts(l, w, m, k) == []
    decreases Index(l, w).total - k
  {
    hide Visits;
    if k < Index(l, w).total {
      NoParts(l, w, m, k + 1);
    }
  }

  ghost predicate AllRaw(items: seq<Item>) {
    forall i :: 0 <= i < |items| ==> items[i].Raw?
  }

  lemma RawParts(l: Layout, w: Walk, k: nat)
    requires l.Shaped() && (w.SomSlots? ==> l.som.Some?)
    ensures Parts(l, w, k) != [] && AllRaw(Parts(l, w, k))
  {
  }

  /** A stage to which no engine is added is the stage before. */
  lemma NothingAdded(l: Layout, offset: nat, m: seq<Byte>)
    requires l.Shaped()
    ensures Stage(l, offset, m, 2) <= Stage(l, offset, m, 3) <= Stage(l, offset, m, 4)
    ensures KeyParts(l, Endfixes, m, 0) == [] ==> Stage(l, offset, m, 3) == Stage(l, offset, m, 2)
    ensures l.leftIter.None? || KeyParts(l, Leftfixes, m, 0) == [] ==> Stage(l, offset, m, 4) == Stage(l, offset, m, 3)
  {
    hide Front, Middle, KeyParts;
  }

  lemma NoSom(l: Layout, offset: nat, m: seq<Byte>)
    requires l.Shaped() && l.som.None?
    ensures Stage(l, offset, m, 4) == Stage(l, offset, m, 5) == Plan(l, offset, m)
  {
    hide Nfas, Lefts, Front, Middle;
  }

  lemma LastIsValid(l: Layout, offset: nat, m: seq<Byte>)
    requires l.Shaped() && l.som.Some?
    ensures var g := Stage(l, offset, m, 5); g != [] && g[|g| - 1] == Index(l, SomSlots)
  {
    hide Nfas, Lefts, Front, Middle;
  }

  /** A key in the known bytes of a flat multibit is on in what was read. */
  lemma KnownKeyOn(m: seq<Byte>, src: seq<Byte>, item: Item, bytes: nat, k: nat)
    requires item.Multi? && IsFlat(item.total) && CutShort(m, src, item.at, item.total, bytes) && k / 8 < bytes
    requires KeyOn(src, item.at, item.total, k)
    ensures KeyOn(m, item.at, item.total, k)
  {
    assert m[item.at..item.at + bytes][k / 8] == src[item.at..item.at + bytes][k / 8];
  }

  lemma PutBack(was: seq<Byte>, m: seq<Byte>, src: seq<Byte>, item: Item, bytes: seq<Byte>)
    requires item.Raw? && item.In(src) && |was| == |src| && bytes == item.Image(src)
    requires m == Put(was, item.at, bytes)
    ensures item.Restored(m, src) && SameOutside(was, m, item.at, item.End() - item.at)
  {
  }

  lemma OffsetBack(l: Layout, offset: nat, m: seq<Byte>, buf: seq<Byte>, known: nat, size: nat)
    requires Sound(l, offset, m) && Begins(buf, Compressed(l, offset, m), known)
    requires size >= 8 && (known == |Compressed(l, offset, m)| || known == size)
    ensures 8 <= known && LittleEndian(Bytes(buf, 0, 8)) == offset
  {
    hide Plan, LittleEndian, Stored, Images, AllIn, AllApart, Layout.Shaped;
    Capacities();
    LoadStored(offset, 8);
    KnownBytes(buf, Compressed(l, offset, m), known, 0, 8);
    assert Compressed(l, offset, m)[0..8] == Stored(offset, 8);
  }
}
