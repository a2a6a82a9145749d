/** Stream objects: open, scan, reset, copy, close and vectored scanning, updating their state in place. */
module StreamRuntime {
  import opened Common
  import opened StreamSpec

  /** The part of scratch that stream calls share. */
  class Scratch {
    var inUse: bool
    /** Status bits of the last call that reached an engine. */
    var status: Status

    constructor ()
      ensures !inUse && status == CLEAN
    {
      inUse, status := false, CLEAN;
    }
  }

  class StreamObject {
    const rose: Rose
    /** The address of the engine, by which two streams are known to share it. */
    const roseAddress: nat
    var offset: nat
    var status: Status
    var engine: Engine
    const history: array<Byte>
    /** The data of all completed writes since the stream was opened or reset. */
    ghost var written: seq<Byte>

    /** The history invariant. */
    ghost predicate Valid()
      reads this`offset, this`written, history
    {
      && history.Length == rose.historyRequired && offset == |written|
      && LiveAt(history[..], offset) == Last(written, Min(rose.historyRequired, offset))
    }

    function Value(): Stream
      reads this, history
    {
      Stream(offset, status, history[..], engine)
    }

    /** Open a stream in memory that held other bytes. */
    constructor (rose: Rose, roseAddress: nat, memory: nat -> Byte)
      ensures Valid() && this.rose == rose && this.roseAddress == roseAddress && written == [] && fresh(history)
      ensures Value() == Opened(rose, InitHistory(rose.historyRequired, memory))
      ensures offset == 0 && engine == rose.initial && status == Status(false, false, false, false)
    {
      this.rose, this.roseAddress := rose, roseAddress;
      offset, status, engine, written := 0, CLEAN, rose.initial, [];
      var n := rose.historyRequired;
      history := new Byte[n](i requires 0 <= i => if i + 16 >= n then 0x5a else memory(i));
      new;
      assert history[..] == InitHistory(n, memory);
    }

    /** Copy a stream. */
    constructor Copy(from: StreamObject)
      requires from.Valid()
      ensures Valid() && rose == from.rose && roseAddress == from.roseAddress && written == from.written && fresh(history)
      ensures Value() == from.Value()
    {
      rose, roseAddress := from.rose, from.roseAddress;
      offset, status, engine, written := from.offset, from.status, from.engine, from.written;
      history := new Byte[from.history.Length](i requires 0 <= i < from.history.Length reads from.history => from.history[i]);
      new;
      assert history[..] == from.history[..];
    }

    /** Slide the new bytes into the history buffer. */
    method MaintainHistory(data: seq<Byte>)
      requires history.Length == rose.historyRequired
      modifies history
      ensures history[..] == Slide(old(history[..]), data)
    {
      var n := rose.historyRequired;
      if n == 0 {
        return;
      }
      if |data| == 0 {
        return;
      }
      hide Slide;
      SlideAt(history[..], data);
      if |data| < n {
        MoveDown(n - |data|);
      }
      var amount := Min(n, |data|);
      forall i | 0 <= i < amount {
        history[n - amount + i] := data[|data| - amount + i];
      }
      assert forall i: nat :: i < n ==> history[i] == Slide(old(history[..]), data)[i];
    }

    /** Move the last bytes of the buffer to its front. */
    method MoveDown(shortfall: nat)
      requires history.Length == rose.historyRequired && shortfall <= history.Length
      modifies history
      ensures forall i: nat :: i < shortfall ==> history[i] == old(history[..])[history.Length - shortfall + i]
    {
      forall i | 0 <= i < shortfall {
        history[i] := history[rose.historyRequired - shortfall + i];
      }
    }

    /** Take in a write. */
    method Advance(data: seq<Byte>)
      requires Valid()
      modifies this`offset, this`written, history
      ensures Valid() && offset == old(offset) + |data| && written == old(written) + data
      ensures history[..] == Slide(old(history[..]), data)
    {
      hide Slide;
      SlideKeepsTail(written, history[..], offset, data);
      MaintainHistory(data);
      offset := offset + |data|;
      written := written + data;
    }

    /** A scan: the specified step, and the history invariant with the data appended to the writes when it was
        taken in. */
    method ScanInternal(scratch: Scratch, data: seq<Byte>, onEvent: Option<Handler>, t: seq<Event>)
      returns (code: Code, trace: seq<Event>)
      requires Valid()
      modifies this, history, scratch
      ensures Valid() && scratch.inUse == old(scratch.inUse)
      ensures Step(Value(), trace, scratch.status, code)
           == StreamSpec.Scan(rose, old(Value()), data, Effective(onEvent), t, old(scratch.status))
      ensures written == if offset == old(offset) then old(written) else old(written) + data
    {
      hide Slide, Matched, Run, LiveAt, Valid;
      var h := Effective(onEvent);
      if status.Broken() {
        if status.error {
          return UnknownError, t;
        } else if status.terminated {
          return ScanTerminated, t;
        }
        return Success, t;
      }
      if |data| == 0 {
        return Success, t;
      }
      var halt;
      halt, trace := RunEngines(scratch, data, h, t);
      status := scratch.status;
      if halt {
        return if status.terminated then ScanTerminated else Success, trace;
      }
      if status.error {
        return UnknownError, trace;
      } else if !status.Broken() {
        Advance(data);
      } else if status.terminated {
        return ScanTerminated, trace;
      }
      code := Success;
    }

    /** Boundary program at offset zero, main engine, SOM flush. */
    method RunEngines(scratch: Scratch, data: seq<Byte>, h: Handler, t: seq<Event>)
      returns (halt: bool, trace: seq<Event>)
      modifies this`engine, scratch`status
      ensures var c := CoreOf(old(Value()), data);
              var z := Run(if offset == 0 then rose.zero else None, c, t, h);
              var o := if z.halt then z else Matched(rose, After(c, z), z.trace, h);
              halt == z.halt && trace == o.trace && engine == o.engine && scratch.status == o.status
    {
      hide Flushed, LiveAt;
      var core := Core(engine, Live(Value()), data, offset, status);
      scratch.status := status;
      trace := t;
      if offset == 0 && rose.zero.Some? {
        var z := rose.zero.value(core, trace, h);
        engine, scratch.status, trace := z.engine, z.status, z.trace;
        if z.halt {
          return true, trace;
        }
      }
      core := core.(engine := engine, status := scratch.status);
      var e := rose.exec(core, trace, h);
      var f := Flushed(rose.flush, After(core, e), e.trace, h);
      engine, scratch.status, trace := f.engine, f.status, f.trace;
      halt := false;
    }

    method Scan(scratch: Scratch, data: seq<Byte>, onEvent: Option<Handler>, t: seq<Event>)
      returns (code: Code, trace: seq<Event>)
      requires Valid()
      modifies this, history, scratch
      ensures Valid() && scratch.inUse == old(scratch.inUse)
      ensures old(scratch.inUse) ==>
                code == ScratchInUse && trace == t && unchanged(this) && unchanged(history) && unchanged(scratch)
      ensures !old(scratch.inUse) ==>
                && Step(Value(), trace, scratch.status, code)
                   == StreamSpec.Scan(rose, old(Value()), data, Effective(onEvent), t, old(scratch.status))
                && written == if offset == old(offset) then old(written) else old(written) + data
    {
      if scratch.inUse {
        return ScratchInUse, t;
      }
      scratch.inUse := true;
      code, trace := ScanInternal(scratch, data, onEvent, t);
      scratch.inUse := false;
    }

    /** End of data: the specified callbacks; of the stream only the engine state is written. */
    method ReportEod(scratch: Scratch, h: Handler, t: seq<Event>) returns (trace: seq<Event>)
      modifies this`engine, scratch`status
      ensures Ending(trace, scratch.status, engine) == Eod(rose, old(Value()), h, t, old(scratch.status))
    {
      hide Live, Flushed;
      if status.Broken() {
        return t;
      }
      var core := CoreOf(Value(), []);
      scratch.status := status;
      var m;
      if offset == 0 {
        m := Run(rose.eodZero, core, t, h);
        engine, scratch.status := m.engine, m.status;
        if m.halt {
          return m.trace;
        }
      } else {
        m := Run(rose.eod, core, t, h);
        engine, scratch.status := m.engine, m.status;
        if m.halt {
          return m.trace;
        }
        if !scratch.status.Broken() {
          m := Run(rose.eodExec, After(core, m), m.trace, h);
          engine, scratch.status := m.engine, m.status;
        }
      }
      var f := Flushed(rose.flush, After(core, m), m.trace, h);
      var l := Flushed(rose.lastFlush, After(core, f), f.trace, h);
      engine, scratch.status, trace := l.engine, l.status, l.trace;
    }

    /** The end-of-data report that closing, resetting and overwriting make. */
    method Finish(scratch: Scratch, onEvent: Option<Handler>, t: seq<Event>) returns (code: Code, trace: seq<Event>)
      modifies this`engine, scratch
      ensures scratch.inUse == old(scratch.inUse)
      ensures onEvent.Some? && old(scratch.inUse) ==>
                code == ScratchInUse && trace == t && engine == old(engine) && unchanged(scratch)
      ensures onEvent.None? || !old(scratch.inUse) ==>
                var e := Parting(rose, old(Value()), onEvent, t, old(scratch.status));
                Ending(trace, scratch.status, engine) == e && code == PartingCode(onEvent, e)
    {
      hide Eod;
      if onEvent.None? {
        return Success, t;
      }
      if scratch.inUse {
        return ScratchInUse, t;
      }
      scratch.inUse := true;
      trace := ReportEod(scratch, onEvent.value, t);
      code := if scratch.status.error then UnknownError else Success;
      scratch.inUse := false;
    }

    /** Reset: report end of data, then start over with the history bytes left as they are, unless scratch then
        carries an error. */
    method Reset(scratch: Scratch, onEvent: Option<Handler>, t: seq<Event>) returns (code: Code, trace: seq<Event>)
      requires Valid()
      modifies this, scratch
      ensures Valid() && scratch.inUse == old(scratch.inUse)
      ensures onEvent.Some? && old(scratch.inUse) ==>
                code == ScratchInUse && trace == t && unchanged(this) && unchanged(scratch)
      ensures onEvent.None? || !old(scratch.inUse) ==>
                var e := Parting(rose, old(Value()), onEvent, t, old(scratch.status));
                && trace == e.trace && scratch.status == e.left && code == PartingCode(onEvent, e)
                && (code == Success ==> Value() == Opened(rose, old(history[..])) && written == [])
                && (code != Success ==> Value() == old(Value()).(engine := e.engine) && written == old(written))
    {
      hide Eod;
      code, trace := Finish(scratch, onEvent, t);
      if code != Success {
        return;
      }
      offset, status, engine, written := 0, CLEAN, rose.initial, [];
    }

    /** Overwrite this stream with a copy of another stream of the same engine. */
    method ResetAndCopy(from: StreamObject, scratch: Scratch, onEvent: Option<Handler>, t: seq<Event>)
      returns (code: Code, trace: seq<Event>)
      requires Valid() && from.Valid() && (from != this ==> from.history != history)
      requires from.roseAddress == roseAddress ==> from.rose == rose
      modifies this, history, scratch
      ensures Valid() && scratch.inUse == old(scratch.inUse)
      ensures code == Invalid <==> from.roseAddress != roseAddress || from == this
      ensures code == Invalid || code == ScratchInUse ==>
                trace == t && unchanged(this) && unchanged(history) && unchanged(scratch)
      ensures code == ScratchInUse <==>
                from.roseAddress == roseAddress && from != this && onEvent.Some? && old(scratch.inUse)
      ensures code != Invalid && code != ScratchInUse ==>
                var e := Parting(rose, old(Value()), onEvent, t, old(scratch.status));
                && trace == e.trace && scratch.status == e.left && code == PartingCode(onEvent, e)
                && (code == Success ==> Value() == old(from.Value()) && written == old(from.written))
                && (code != Success ==> Value() == old(Value()).(engine := e.engine) && written == old(written))
    {
      hide Parting, LiveAt;
      if roseAddress != from.roseAddress || this == from {
        return Invalid, t;
      }
      code, trace := Finish(scratch, onEvent, t);
      if code != Success {
        return;
      }
      offset, status, engine, written := from.offset, from.status, from.engine, from.written;
      CopyHistory(from);
      assert history[..] == from.history[..] && from.Valid();
    }

    method CopyHistory(from: StreamObject)
      requires history.Length == from.history.Length && from.history != history
      modifies history
      ensures history[..] == from.history[..]
    {
      forall i | 0 <= i < history.Length {
        history[i] := from.history[i];
      }
    }
  }

  /** Scan block after block until a call fails: what is left is as if every block had been scanned. */
  method ScanBlocks(s: StreamObject, blocks: seq<seq<Byte>>, scratch: Scratch, onEvent: Option<Handler>, t: seq<Event>)
    returns (code: Code, trace: seq<Event>)
    requires s.Valid() && Lawful(s.rose)
    modifies s, s.history, scratch
    ensures s.Valid() && scratch.inUse == old(scratch.inUse)
    ensures ScanAll(s.rose, old(s.Value()), blocks, Effective(onEvent), t, old(scratch.status))
         == Step(s.Value(), trace, scratch.status, Success)
    ensures code == Success && !old(s.status.terminated) ==> !s.status.terminated
    ensures code != Success ==> s.status.Broken()
  {
    hide StreamSpec.Scan, Lawful, Latched, StreamObject.Valid;
    var h := Effective(onEvent);
    code, trace := Success, t;
    for i := 0 to |blocks|
      invariant s.Valid() && scratch.inUse == old(scratch.inUse)
      invariant ScanAll(s.rose, old(s.Value()), blocks, h, t, old(scratch.status))
             == ScanAll(s.rose, s.Value(), blocks[i..], h, trace, scratch.status)
      invariant !old(s.status.terminated) ==> !s.status.terminated
      invariant code == Success
    {
      ghost var before, left := s.Value(), scratch.status;
      assert blocks[i..][1..] == blocks[i + 1..];
      ScanLatched(s.rose, before, blocks[i], h, trace, left);
      code, trace := s.ScanInternal(scratch, blocks[i], onEvent, trace);
      if code != Success {
        RunLatchedThroughout(s.rose, s.Value(), blocks[i + 1..], h, trace, scratch.status);
        return;
      }
    }
  }

  /** Open, scan block after block until a call fails, close: the same callbacks as scanning every block of an open
      stream and closing it, whatever the history buffer held. */
  method ScanVector(rose: Rose, blocks: seq<seq<Byte>>, scratch: Scratch, memory: nat -> Byte, onEvent: Option<Handler>,
                    t: seq<Event>)
    returns (code: Code, trace: seq<Event>)
    requires Lawful(rose)
    modifies scratch
    ensures scratch.inUse == old(scratch.inUse)
    ensures old(scratch.inUse) ==> code == ScratchInUse && trace == t && unchanged(scratch)
    ensures !old(scratch.inUse) ==> forall history :: |history| == rose.historyRequired ==>
              trace == StreamCalls(rose, history, blocks, onEvent, t, old(scratch.status))
    ensures onEvent.Some? && Stopped(|t|, trace, onEvent.value) ==> code != Success
  {
    hide Lawful, Eod, Latched, ScanAll;
    if scratch.inUse {
      return ScratchInUse, t;
    }
    scratch.inUse := true;
    var s := new StreamObject(rose, 0, memory);
    ghost var start, left := s.Value(), scratch.status;
    code, trace := ScanBlocks(s, blocks, scratch, onEvent, t);
    ghost var scanned := trace;
    RunLatchedThroughout(rose, start, blocks, Effective(onEvent), t, left);
    if code != Success {
      BrokenEnds(rose, s.Value(), Effective(onEvent), trace, scratch.status);
      scratch.inUse := false;
      AnyHistory(rose, start.history, blocks, onEvent, t, left, trace);
      return;
    }
    if onEvent.Some? {
      ghost var between, ended := scratch.status, s.Value();
      trace := s.ReportEod(scratch, onEvent.value, trace);
      code := if scratch.status.error then UnknownError
              else if scratch.status.terminated then ScanTerminated
              else Success;
      StopSeen(rose, ended, onEvent.value, t, scanned, between);
    }
    scratch.inUse := false;
    AnyHistory(rose, start.history, blocks, onEvent, t, left, trace);
  }

  lemma BrokenEnds(r: Rose, s: Stream, h: Handler, t: seq<Event>, left: Status)
    requires s.status.Broken()
    ensures Eod(r, s, h, t, left) == Ending(t, left, s.engine)
  {
  }

  /** A request to stop before or at end of data shows in the status left behind. */
  lemma StopSeen(r: Rose, s: Stream, h: Handler, t: seq<Event>, scanned: seq<Event>, left: Status)
    requires Lawful(r) && !s.status.terminated && Latched(CLEAN, t, h, scanned, s.status)
    ensures var e := Eod(r, s, h, scanned, left); Stopped(|t|, e.trace, h) ==> e.left.terminated
  {
    hide Lawful, Eod;
    if s.status.Broken() {
      BrokenEnds(r, s, h, scanned, left);
    } else {
      EodLatched(r, s, h, scanned, left);
      var e := Eod(r, s, h, scanned, left);
      LatchedTwice(CLEAN, t, h, scanned, s.status, e.trace, e.left);
    }
  }

  /** Callbacks of opening a stream, scanning every block and closing it. */
  function StreamCalls(rose: Rose, history: seq<Byte>, blocks: seq<seq<Byte>>, onEvent: Option<Handler>, t: seq<Event>,
                       left: Status): seq<Event>
  {
    var f := ScanAll(rose, Opened(rose, history), blocks, Effective(onEvent), t, left);
    if onEvent.Some? then Eod(rose, f.stream, onEvent.value, f.trace, f.left).trace else f.trace
  }

  lemma AnyHistory(rose: Rose, history: seq<Byte>, blocks: seq<seq<Byte>>, onEvent: Option<Handler>, t: seq<Event>,
                   left: Status, trace: seq<Event>)
    requires |history| == rose.historyRequired && trace == StreamCalls(rose, history, blocks, onEvent, t, left)
    ensures forall other :: |other| == rose.historyRequired ==>
              trace == StreamCalls(rose, other, blocks, onEvent, t, left)
  {
    hide ScanAll, Eod;
    forall other | |other| == rose.historyRequired
      ensures trace == StreamCalls(rose, other, blocks, onEvent, t, left)
    {
      AlikeRuns(rose, Opened(rose, history), Opened(rose, other), blocks, Effective(onEvent), t, left);
    }
  }

  lemma SlideAt(h: seq<Byte>, data: seq<Byte>)
    ensures |Slide(h, data)| == |h|
    ensures forall i: nat :: i < |h| ==>
              Slide(h, data)[i] == if i + |data| < |h| then h[i + |data|] else data[i + |data| - |h|]
  {
  }

  lemma LastOf(a: seq<Byte>, b: seq<Byte>, m: nat)
    requires m <= |b|
    ensures Last(a + b, m) == Last(b, m)
  {
  }

  lemma LastOfLast(a: seq<Byte>, n: nat, m: nat)
    requires m <= n <= |a|
    ensures Last(Last(a, n), m) == Last(a, m)
  {
  }

  /** The live tail of the buffer stays the tail of what was written. */
  lemma SlideKeepsTail(written: seq<Byte>, history: seq<Byte>, offset: nat, data: seq<Byte>)
    requires offset == |written| && LiveAt(history, offset) == Last(written, Min(|history|, offset))
    ensures |Slide(history, data)| == |history|
    ensures LiveAt(Slide(history, data), offset + |data|)
         == Last(written + data, Min(|history|, offset + |data|))
  {
    var n, live := |history|, Min(|history|, offset);
    var m := Min(n, offset + |data|);
    SameTail(history, written, data, live, m);
    assert Slide(history, data) == Last(history + data, n);
    LastOfLast(history + data, n, m);
  }

  /** Sequences with a common tail have a longer common tail when both are extended. */
  lemma SameTail(a: seq<Byte>, b: seq<Byte>, data: seq<Byte>, live: nat, m: nat)
    requires live <= |a| && live <= |b| && Last(a, live) == Last(b, live) && m <= live + |data|
    ensures Last(a + data, m) == Last(b + data, m)
  {
    Split(a, data, live, m);
    Split(b, data, live, m);
  }

  lemma Split(a: seq<Byte>, data: seq<Byte>, live: nat, m: nat)
    requires live <= |a| && m <= live + |data|
    ensures Last(a + data, m) == Last(Last(a, live) + data, m)
  {
    var front := a[..|a| - live];
    assert a == front + Last(a, live);
    assert a + data == front + (Last(a, live) + data);
    LastOf(front, Last(a, live) + data, m);
  }
}
