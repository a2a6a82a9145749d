/** Splitting a scan into zones whose boundary data is copied into small buffers. */
module FdrZones {

  import opened Common

  const ITER_BYTES: nat := 16
  const CONF_SIZE: nat := 8
  const ZONE_TOTAL_SIZE: nat := 64

  /** The data of a scan: history, at negative addresses, then the buffer. At least 16 bytes before the
      end of the history are readable. */
  datatype Input = Input(history: seq<Byte>, buf: seq<Byte>)
  {
    predicate Valid() { |history| >= 16 }

    predicate Readable(a: int) { -|history| <= a < |buf| }

    function At(a: int): Byte
      requires Readable(a)
    {
      if a < 0 then history[|history| + a] else buf[a]
    }

    /** A load of n consecutive bytes. */
    function Load(a: int, n: nat): (bytes: seq<Byte>)
      requires Readable(a) && a + n <= |buf|
      ensures |bytes| == n && forall i :: 0 <= i < n ==> bytes[i] == At(a + i)
    {
      seq<Byte>(n, i requires 0 <= i < n => At(a + i))
    }
  }

  /** A boundary zone scans its own buffer, the main zone scans the input buffer itself. Positions p of a zone
      stand for the address p + adjust. */
  class Zone {
    const buf: array<Byte>
    var inPlace: bool
    var start: int
    var end: int
    var shift: int
    var adjust: int

    ghost predicate Valid()
      reads this
    {
      buf.Length == 64
    }

    constructor ()
      ensures Valid() && fresh(buf)
    {
      buf := new Byte[ZONE_TOTAL_SIZE](_ => 0);
      inPlace, start, end, shift, adjust := false, 0, 0, 0, 0;
    }

    predicate Holds(inp: Input, p: int)
      requires Valid()
      reads this, buf
    {
      if inPlace then inp.Readable(p) else 0 <= p < ZONE_TOTAL_SIZE
    }

    function ByteAt(inp: Input, p: int): Byte
      requires Valid() && Holds(inp, p)
      reads this, buf
    {
      if inPlace then inp.At(p) else buf[p]
    }

    /** The zone scans the addresses from..to: whole iterations once the first `shift` positions are ignored,
        and every scanned byte and the 8 bytes before it are those of the input. */
    ghost predicate Faithful(inp: Input, from: nat, to: nat)
      requires Valid()
      reads this, buf
    {
      && from < to <= |inp.buf|
      && 0 <= shift < ITER_BYTES && (end - start) % ITER_BYTES == 0
      && start + shift + adjust == from && end + adjust == to
      && Holds(inp, start) && Holds(inp, end)
      && (forall a :: from - CONF_SIZE <= a < to && inp.Readable(a) ==>
            Holds(inp, a - adjust) && ByteAt(inp, a - adjust) == inp.At(a))
    }

    /** A store of consecutive bytes into the zone buffer. */
    method Store(at: nat, bytes: seq<Byte>)
      requires Valid() && at + |bytes| <= ZONE_TOTAL_SIZE
      modifies buf
      ensures forall i :: 0 <= i < ZONE_TOTAL_SIZE ==>
                buf[i] == if at <= i < at + |bytes| then bytes[i - at] else old(buf[i])
    {
      forall i | at <= i < at + |bytes| {
        buf[i] := bytes[i - at];
      }
    }

    method CreateMainZone(begin: nat, main_end: nat)
      requires Valid()
      modifies this
      ensures inPlace && start == begin && end == main_end && shift == 0 && adjust == 0
    {
      inPlace, adjust := true, 0;
      start, end, shift := begin, main_end, 0;
    }

    /** Copy the last 16 to 24 bytes before address `end`: the first 8, then the last 16 over them. */
    method CopyOverlapping(inp: Input, at: nat, end: nat, len: nat)
      requires Valid() && inp.Valid() && 16 <= len <= 24 && len <= end <= |inp.buf| && at + len <= ZONE_TOTAL_SIZE
      modifies buf
      ensures forall i :: 0 <= i < ZONE_TOTAL_SIZE ==>
                buf[i] == if at <= i < at + len then inp.At(end - len + (i - at)) else old(buf[i])
    {
      Store(at, inp.Load(end - len, 8));
      Store(at + len - 16, inp.Load(end - 16, 16));
    }

    /** Copy the last `len` bytes before address `end` to `at`, by loads and stores of fixed sizes that may overlap. */
    method CopyData(inp: Input, at: nat, end: nat, len: nat)
      requires Valid() && inp.Valid() && 1 <= len <= 24 && len <= end <= |inp.buf| && at + len <= ZONE_TOTAL_SIZE
      modifies buf
      ensures forall i :: 0 <= i < ZONE_TOTAL_SIZE ==>
                buf[i] == if at <= i < at + len then inp.At(end - len + (i - at)) else old(buf[i])
    {
      if len == 1 {
        Store(at, inp.Load(end - 1, 1));
      } else if len == 2 {
        Store(at, inp.Load(end - 2, 2));
      } else if len == 3 {
        Store(at, inp.Load(end - 3, 2));
        Store(at + 2, inp.Load(end - 1, 1));
      } else if len == 4 {
        Store(at, inp.Load(end - 4, 4));
      } else if len < 8 {
        Store(at, inp.Load(end - len, 4));
        Store(at + len - 4, inp.Load(end - 4, 4));
      } else if len == 8 {
        Store(at, inp.Load(end - 8, 8));
      } else if len < 16 {
        Store(at, inp.Load(end - len, 8));
        Store(at + len - 8, inp.Load(end - 8, 8));
      } else if len == 16 {
        Store(at, inp.Load(end - 16, 16));
      } else {
        CopyOverlapping(inp, at, end, len);
      }
    }

    /** The whole scan fits one iteration: 16 bytes of history, up to 24 bytes of data, a padding byte. */
    method CreateShortZone(inp: Input, begin: nat, end': nat)
      requires Valid() && inp.Valid() && begin < end' == |inp.buf| && end' - begin <= ITER_BYTES
      modifies this, buf
      ensures Faithful(inp, begin, end') && !inPlace && buf[end] == 0
    {
      var zlen := end' - begin;
      inPlace := false;
      shift := ITER_BYTES - zlen;
      Store(0, inp.Load(-16, 16));
      var copyLen := if end' < ITER_BYTES + CONF_SIZE then end' else ITER_BYTES + CONF_SIZE;
      CopyData(inp, 16, end', copyLen);
      var zend := 16 + copyLen;
      Store(zend, [0]);
      end := zend;
      start := zend - ITER_BYTES;
      adjust := end' - zend;
    }

    /** Exactly one iteration at the beginning of a longer scan. */
    method CreateStartZone(inp: Input, begin: nat)
      requires Valid() && inp.Valid() && begin + ITER_BYTES < |inp.buf|
      modifies this, buf
      ensures Faithful(inp, begin, begin + ITER_BYTES) && !inPlace && shift == 0
      ensures buf[end] == inp.At(begin + ITER_BYTES)
    {
      var end' := begin + ITER_BYTES;
      inPlace := false;
      shift := 0;
      Store(0, inp.Load(-8, 8));
      var copyLen := if end' < ITER_BYTES + CONF_SIZE then end' else ITER_BYTES + CONF_SIZE;
      Store(CONF_SIZE + copyLen, [inp.At(end')]);
      var zend := CONF_SIZE + copyLen;
      end := zend;
      start := zend - ITER_BYTES;
      CopyOverlapping(inp, CONF_SIZE, end', copyLen);
      adjust := end' - zend;
    }

    /** The rest of a longer scan, one or two iterations. */
    method CreateEndZone(inp: Input, begin: nat, end': nat)
      requires Valid() && inp.Valid() && ITER_BYTES <= begin < end' == |inp.buf| && end' - begin <= 2 * ITER_BYTES
      modifies this, buf
      ensures Faithful(inp, begin, end') && !inPlace && buf[end] == 0
    {
      var zlen := end' - begin;
      var second := if zlen > ITER_BYTES then ITER_BYTES else 0;
      inPlace := false;
      shift := ITER_BYTES - (zlen - second);
      var endFirst := end' - second;
      var copyFirst := if endFirst < ITER_BYTES + CONF_SIZE then endFirst else ITER_BYTES + CONF_SIZE;
      var total := copyFirst + second;
      Store(total, [0]);
      end := total;
      start := total - ITER_BYTES - second;
      CopyTail(inp, endFirst, copyFirst, second);
      adjust := end' - total;
      CopiedIsFaithful(inp, begin, end');
    }

    /** A zone buffer holding the bytes before `to` is a faithful zone. */
    lemma CopiedIsFaithful(inp: Input, from: nat, to: nat)
      requires Valid() && !inPlace && from < to <= |inp.buf|
      requires 0 <= shift < ITER_BYTES && (end - start) % ITER_BYTES == 0
      requires start + shift + adjust == from && end + adjust == to
      requires 0 <= start <= end < ZONE_TOTAL_SIZE && 0 <= adjust <= from - CONF_SIZE
      requires forall p :: 0 <= p < end ==> buf[p] == inp.At(p + adjust)
      ensures Faithful(inp, from, to)
    {
      forall a | from - CONF_SIZE <= a < to
        ensures Holds(inp, a - adjust) && ByteAt(inp, a - adjust) == inp.At(a)
      {
        var p := a - adjust;
        assert buf[p] == inp.At(p + adjust);
      }
    }

    /** Copy the last 16 to 24 bytes before address `end` to the front, and the `second` bytes behind it, if any. */
    method CopyTail(inp: Input, end: nat, len: nat, second: nat)
      requires Valid() && inp.Valid() && 16 <= len <= 24 && len <= end && end + second <= |inp.buf|
      requires second == 0 || second == ITER_BYTES
      modifies buf
      ensures forall i :: 0 <= i < ZONE_TOTAL_SIZE ==>
                buf[i] == if i < len + second then inp.At(end - len + i) else old(buf[i])
    {
      CopyOverlapping(inp, 0, end, len);
      if second > 0 {
        Store(len + second - 16, inp.Load(end + second - 16, 16));
      }
    }
  }

  /** The zones of a scan of buf[start..]: they tile it in order, without gap or overlap. */
  method PrepareZones(inp: Input, start: nat) returns (zones: seq<Zone>, ghost cuts: seq<nat>)
    requires inp.Valid() && start < |inp.buf|
    ensures 1 <= |zones| <= 3 && |cuts| == |zones| + 1
    ensures cuts[0] == start && cuts[|zones|] == |inp.buf|
    ensures forall k :: 0 <= k < |zones| ==> cuts[k] < cuts[k + 1]
    ensures forall k :: 0 <= k < |zones| ==> zones[k].Valid() && zones[k].Faithful(inp, cuts[k], cuts[k + 1])
    ensures forall k :: 0 <= k < |zones| && zones[k].inPlace ==> zones[k].end + 3 <= |inp.buf|
  {
    hide Zone.Faithful;
    var len := |inp.buf|;
    var remaining := len - start;
    var first := new Zone();
    if remaining <= ITER_BYTES {
      first.CreateShortZone(inp, start, len);
      return [first], [start, len];
    }
    first.CreateStartZone(inp, start);
    var ptr := start + ITER_BYTES;
    var mainEnd := start + (remaining - 3) / ITER_BYTES * ITER_BYTES;
    if mainEnd > ptr {
      var main := NewMainZone(inp, ptr, mainEnd);
      var last := NewEndZone(inp, mainEnd, len);
      zones, cuts := [first, main, last], [start, ptr, mainEnd, len];
    } else {
      var last := NewEndZone(inp, ptr, len);
      zones, cuts := [first, last], [start, ptr, len];
    }
  }

  method NewMainZone(inp: Input, begin: nat, end: nat) returns (z: Zone)
    requires inp.Valid() && ITER_BYTES <= begin < end <= |inp.buf| - 3 && (end - begin) % ITER_BYTES == 0
    ensures fresh(z) && fresh(z.buf) && z.Valid() && z.Faithful(inp, begin, end) && z.inPlace && z.end == end
  {
    z := new Zone();
    z.CreateMainZone(begin, end);
  }

  method NewEndZone(inp: Input, begin: nat, end: nat) returns (z: Zone)
    requires inp.Valid() && ITER_BYTES <= begin < end == |inp.buf| && end - begin <= 2 * ITER_BYTES
    ensures fresh(z) && fresh(z.buf) && z.Valid() && z.Faithful(inp, begin, end) && !z.inPlace
  {
    z := new Zone();
    z.CreateEndZone(inp, begin, end);
  }
}
