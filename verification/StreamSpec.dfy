/** Streaming over abstract matching engines: what one call does to a stream and which callbacks it makes. */
module StreamSpec {

  import opened Common

  datatype Status = Status(terminated: bool, exhausted: bool, delayDirty: bool, error: bool)
  {
    /** Matching on this stream is over. */
    predicate Broken() { terminated || exhausted || error }

    /** A request to stop stays on record, and matching that is over stays over; other bits come and go. */
    predicate Within(other: Status) { (terminated ==> other.terminated) && (Broken() ==> other.Broken()) }
  }

  const CLEAN := Status(false, false, false, false)

  datatype Code = Success | ScanTerminated | UnknownError | ScratchInUse | Invalid

  datatype Event = Event(id: nat, from: nat, to: nat)

  /** The user's callback: given all calls so far, the last being the current one, does it ask to stop? */
  type Handler = seq<Event> -> bool

  /** Engine state kept in the stream. */
  type Engine = seq<Byte>

  /** What an engine is shown. */
  datatype Core = Core(engine: Engine, history: seq<Byte>, data: seq<Byte>, offset: nat, status: Status)

  /** What an engine leaves: its state, the status bits, the callbacks made so far, and its own return value. */
  datatype Outcome = Outcome(engine: Engine, status: Status, trace: seq<Event>, halt: bool)

  type Hook = (Core, seq<Event>, Handler) -> Outcome

  /** Engines of a database; a missing program is None. */
  datatype Rose = Rose(historyRequired: nat, initial: Engine, zero: Option<Hook>, exec: Hook, flush: Option<Hook>,
                       eodZero: Option<Hook>, eod: Option<Hook>, eodExec: Option<Hook>, lastFlush: Option<Hook>)

  /** No callback is made after one that asked to stop. */
  ghost predicate QuietAfterStop(from: nat, trace: seq<Event>, h: Handler) {
    forall k: nat :: from < k < |trace| ==> !h(trace[..k])
  }

  predicate Stopped(from: nat, trace: seq<Event>, h: Handler) {
    |trace| > from && h(trace)
  }

  /** Engines append callbacks, keep requests to stop and broken streams so, and make no callback after a request to
      stop. */
  ghost predicate WellBehaved(c: Core, t: seq<Event>, h: Handler, o: Outcome) {
    t <= o.trace && c.status.Within(o.status) && QuietAfterStop(|t|, o.trace, h)
  }

  /** The main engine and the end-of-data engine record a request to stop in the status. */
  ghost predicate LawfulExec(f: Hook) {
    forall c, t, h :: WellBehaved(c, t, h, f(c, t, h)) && (Stopped(|t|, f(c, t, h).trace, h) ==> f(c, t, h).status.terminated)
  }

  /** A boundary program also reports it, and halts for no other reason than the stream being broken. */
  ghost predicate LawfulProgram(f: Hook) {
    && LawfulExec(f)
    && forall c, t, h :: && (Stopped(|t|, f(c, t, h).trace, h) ==> f(c, t, h).halt)
                         && (f(c, t, h).halt ==> f(c, t, h).status.terminated || f(c, t, h).status.exhausted)
  }

  /** A flush reports a request to stop and leaves recording it to the caller. */
  ghost predicate LawfulFlush(f: Hook) {
    forall c, t, h :: WellBehaved(c, t, h, f(c, t, h)) && (Stopped(|t|, f(c, t, h).trace, h) ==> f(c, t, h).halt)
  }

  ghost predicate Lawful(r: Rose) {
    && (r.zero.Some? ==> LawfulProgram(r.zero.value)) && LawfulExec(r.exec)
    && (r.flush.Some? ==> LawfulFlush(r.flush.value)) && (r.eodZero.Some? ==> LawfulProgram(r.eodZero.value))
    && (r.eod.Some? ==> LawfulProgram(r.eod.value)) && (r.eodExec.Some? ==> LawfulExec(r.eodExec.value))
    && (r.lastFlush.Some? ==> LawfulFlush(r.lastFlush.value))
  }

  /** An engine that reports once per write and heeds the answer. */
  function ReportOnce(c: Core, t: seq<Event>, h: Handler): Outcome {
    var trace := t + [Event(0, c.offset, c.offset + |c.data|)];
    Outcome(c.engine, c.status.(terminated := c.status.terminated || h(trace)), trace, false)
  }

  /** One that leaves a status of its own, as Rose does: the delay bit cleared, or nothing but exhaustion unless it was
      told to stop. */
  function ReportAndTidy(c: Core, t: seq<Event>, h: Handler): Outcome {
    var o := ReportOnce(c, t, h);
    o.(status := if o.status.terminated then o.status.(delayDirty := false) else CLEAN.(exhausted := true))
  }

  /** The laws leave room for it. */
  lemma OverwrittenStatusLawful(n: nat)
    ensures Lawful(Rose(n, [], None, ReportAndTidy, None, None, None, Some(ReportOnce), None))
  {
    assert LawfulExec(ReportOnce) && LawfulExec(ReportAndTidy) by {
      forall c, t, h
        ensures WellBehaved(c, t, h, ReportOnce(c, t, h)) && WellBehaved(c, t, h, ReportAndTidy(c, t, h))
      {
      }
    }
  }

  datatype Stream = Stream(offset: nat, status: Status, history: seq<Byte>, engine: Engine)

  /** The last n bytes. */
  function Last(s: seq<Byte>, n: nat): seq<Byte>
    requires n <= |s|
  {
    s[|s| - n..]
  }

  /** The history bytes an engine may look at. */
  function Live(s: Stream): seq<Byte> {
    LiveAt(s.history, s.offset)
  }

  function LiveAt(history: seq<Byte>, offset: nat): seq<Byte> {
    Last(history, Min(|history|, offset))
  }

  /** A buffer of fixed size with more bytes pushed in at the end. */
  function Slide(history: seq<Byte>, data: seq<Byte>): seq<Byte> {
    (history + data)[|data|..]
  }

  /** What a call leaves: the stream, the callbacks made so far, the status left in scratch, the return code. */
  datatype Step = Step(stream: Stream, trace: seq<Event>, left: Status, code: Code)

  function Idle(c: Core, t: seq<Event>): Outcome {
    Outcome(c.engine, c.status, t, false)
  }

  function After(c: Core, o: Outcome): Core {
    c.(engine := o.engine, status := o.status)
  }

  /** A flush run unless told to stop, its request to stop recorded. */
  function Flushed(flush: Option<Hook>, c: Core, t: seq<Event>, h: Handler): Outcome {
    if flush.Some? && !c.status.terminated then
      var o := flush.value(c, t, h);
      if o.halt then o.(status := o.status.(terminated := true)) else o
    else Idle(c, t)
  }

  function Run(f: Option<Hook>, c: Core, t: seq<Event>, h: Handler): Outcome {
    if f.Some? then f.value(c, t, h) else Idle(c, t)
  }

  function BrokenCode(s: Status): Code {
    if s.error then UnknownError else if s.terminated then ScanTerminated else Success
  }

  /** Main engine, then the SOM flush. */
  function Matched(r: Rose, c: Core, t: seq<Event>, h: Handler): Outcome {
    var e := r.exec(c, t, h);
    Flushed(r.flush, After(c, e), e.trace, h)
  }

  function CoreOf(s: Stream, data: seq<Byte>): Core {
    Core(s.engine, Live(s), data, s.offset, s.status)
  }

  /** One scan of a stream; `left` is the status that scratch held before. */
  function Scan(r: Rose, s: Stream, data: seq<Byte>, h: Handler, t: seq<Event>, left: Status): Step {
    if s.status.Broken() then Step(s, t, left, BrokenCode(s.status))
    else if data == [] then Step(s, t, left, Success)
    else
      var c := CoreOf(s, data);
      var z := Run(if s.offset == 0 then r.zero else None, c, t, h);
      var o := if z.halt then z else Matched(r, After(c, z), z.trace, h);
      var s' := s.(status := o.status, engine := o.engine);
      if z.halt then Step(s', o.trace, o.status, if o.status.terminated then ScanTerminated else Success)
      else if o.status.error then Step(s', o.trace, o.status, UnknownError)
      else if !o.status.Broken() then
        Step(s'.(history := Slide(s.history, data), offset := s.offset + |data|), o.trace, o.status, Success)
      else Step(s', o.trace, o.status, if o.status.terminated then ScanTerminated else Success)
  }

  /** End of data: the callbacks made so far, the status left in scratch, the engine state left in the stream. The
      status of the stream is not written. */
  datatype Ending = Ending(trace: seq<Event>, left: Status, engine: Engine)

  /** Boundary program and end-of-data engine. */
  function EodMatched(r: Rose, c: Core, t: seq<Event>, h: Handler): Outcome {
    if c.offset == 0 then Run(r.eodZero, c, t, h)
    else
      var b := Run(r.eod, c, t, h);
      if b.halt then b
      else if b.status.Broken() then b
      else Run(r.eodExec, After(c, b), b.trace, h).(halt := false)
  }

  function Eod(r: Rose, s: Stream, h: Handler, t: seq<Event>, left: Status): Ending {
    if s.status.Broken() then Ending(t, left, s.engine)
    else
      var c := CoreOf(s, []);
      var m := EodMatched(r, c, t, h);
      if m.halt then Ending(m.trace, m.status, m.engine)
      else
        var f := Flushed(r.flush, After(c, m), m.trace, h);
        var l := Flushed(r.lastFlush, After(c, f), f.trace, h);
        Ending(l.trace, l.status, l.engine)
  }

  /** The end-of-data report made before a stream is closed, reset or overwritten: only with a callback. */
  function Parting(r: Rose, s: Stream, onEvent: Option<Handler>, t: seq<Event>, left: Status): Ending {
    if onEvent.Some? then Eod(r, s, onEvent.value, t, left) else Ending(t, left, s.engine)
  }

  /** What the call returns after it. */
  function PartingCode(onEvent: Option<Handler>, e: Ending): Code {
    if onEvent.Some? && e.left.error then UnknownError else Success
  }

  /** The callback the engines see: a missing one never asks to stop. */
  function Effective(onEvent: Option<Handler>): (h: Handler)
    ensures forall t :: h(t) <==> onEvent.Some? && onEvent.value(t)
  {
    if onEvent.Some? then onEvent.value else (_ => false)
  }

  /** The history of a new stream in memory that held other bytes: only the last 16 bytes are written. */
  function InitHistory(n: nat, memory: nat -> Byte): seq<Byte> {
    seq(n, i requires 0 <= i < n => if i + 16 >= n then 0x5a else memory(i))
  }

  function Opened(r: Rose, history: seq<Byte>): Stream {
    Stream(0, CLEAN, history, r.initial)
  }

  /** A run of scans, whatever their return codes. */
  function ScanAll(r: Rose, s: Stream, blocks: seq<seq<Byte>>, h: Handler, t: seq<Event>, left: Status): Step
    decreases |blocks|
  {
    if blocks == [] then Step(s, t, left, Success)
    else
      var f := Scan(r, s, blocks[0], h, t, left);
      ScanAll(r, f.stream, blocks[1..], h, f.trace, f.left)
  }

  // Latch ------------------------------------------------------------------------------------------------------

  /** Appending quiet callbacks to quiet callbacks that did not end in a request to stop. */
  lemma QuietTwice(from: nat, t: seq<Event>, u: seq<Event>, h: Handler)
    requires from <= |t| && t <= u && QuietAfterStop(from, t, h) && QuietAfterStop(|t|, u, h)
    requires !Stopped(from, t, h) || u == t
    ensures QuietAfterStop(from, u, h)
  {
    forall k: nat | from < k < |u|
      ensures !h(u[..k])
    {
      if k < |t| {
        assert u[..k] == t[..k];
      } else if k == |t| {
        assert u[..k] == t;
      }
    }
  }

  /** What a call promises about the callbacks it makes. */
  ghost predicate Latched(c: Status, t: seq<Event>, h: Handler, trace: seq<Event>, status: Status) {
    && t <= trace && c.Within(status) && QuietAfterStop(|t|, trace, h)
    && (Stopped(|t|, trace, h) ==> status.terminated)
  }

  lemma LatchedTwice(c: Status, t: seq<Event>, h: Handler, m: seq<Event>, between: Status, trace: seq<Event>,
                     status: Status)
    requires Latched(c, t, h, m, between) && Latched(between, m, h, trace, status)
    requires between.terminated ==> trace == m
    ensures Latched(c, t, h, trace, status)
  {
    QuietTwice(|t|, m, trace, h);
    if |trace| == |m| {
      assert trace == m;
    }
  }

  lemma FlushLatched(flush: Option<Hook>, c: Core, t: seq<Event>, h: Handler)
    requires flush.Some? ==> LawfulFlush(flush.value)
    ensures var o := Flushed(flush, c, t, h);
            Latched(c.status, t, h, o.trace, o.status) && (c.status.terminated ==> o.trace == t)
  {
    if flush.Some? && !c.status.terminated {
      var o := flush.value(c, t, h);
      assert WellBehaved(c, t, h, o);
    }
  }

  lemma RunLatched(f: Option<Hook>, c: Core, t: seq<Event>, h: Handler)
    requires f.Some? ==> LawfulExec(f.value)
    ensures var o := Run(f, c, t, h); Latched(c.status, t, h, o.trace, o.status)
  {
    if f.Some? {
      var o := f.value(c, t, h);
      assert WellBehaved(c, t, h, o);
    }
  }

  lemma ProgramHalts(f: Option<Hook>, c: Core, t: seq<Event>, h: Handler)
    requires f.Some? ==> LawfulProgram(f.value)
    requires !c.status.Broken()
    ensures var o := Run(f, c, t, h);
            && (o.halt ==> o.status.Broken())
            && (!o.halt ==> !Stopped(|t|, o.trace, h))
  {
    if f.Some? {
      var o := f.value(c, t, h);
    }
  }

  lemma MatchedLatched(r: Rose, c: Core, t: seq<Event>, h: Handler)
    requires Lawful(r)
    ensures var o := Matched(r, c, t, h); Latched(c.status, t, h, o.trace, o.status)
  {
    var e := r.exec(c, t, h);
    RunLatched(Some(r.exec), c, t, h);
    FlushLatched(r.flush, After(c, e), e.trace, h);
    var o := Flushed(r.flush, After(c, e), e.trace, h);
    LatchedTwice(c.status, t, h, e.trace, e.status, o.trace, o.status);
  }

  /** A scan makes no callback after a request to stop, keeps the request in the stream's status, and on a broken
      stream does nothing at all. */
  lemma ScanLatched(r: Rose, s: Stream, data: seq<Byte>, h: Handler, t: seq<Event>, left: Status)
    requires Lawful(r)
    ensures var f := Scan(r, s, data, h, t, left);
            && Latched(s.status, t, h, f.trace, f.stream.status)
            && (s.status.Broken() ==> f.trace == t && f.stream == s && f.left == left)
            && (f.code != Success ==> f.stream.status.Broken())
            && (f.code == Success ==> !f.stream.status.terminated)
            && (f.code == ScanTerminated ==> f.stream.status.terminated)
            && (f.code == UnknownError ==> f.stream.status.error)
            && (f.stream.status.error && (r.zero.None? || s.offset > 0 || s.status.error) ==> f.code == UnknownError)
            && (!s.status.Broken() && data != [] ==> f.left == f.stream.status)
  {
    hide LawfulExec, LawfulProgram, LawfulFlush, Latched, Matched;
    if s.status.Broken() || data == [] {
      StillLatched(s.status, t, h);
    } else {
      var c := CoreOf(s, data);
      var first := if s.offset == 0 then r.zero else None;
      var z := Run(first, c, t, h);
      ZeroLatched(first, c, t, h);
      if !z.halt {
        MatchedLatched(r, After(c, z), z.trace, h);
        var o := Matched(r, After(c, z), z.trace, h);
        NotStopped(c, t, h, z, o);
      }
    }
  }

  /** A write is taken in whole if and only if the stream is still usable after it. */
  lemma TakenIffUsable(r: Rose, s: Stream, data: seq<Byte>, h: Handler, t: seq<Event>, left: Status)
    requires Lawful(r)
    ensures var f := Scan(r, s, data, h, t, left);
            && f.stream.offset == s.offset + (if f.stream.status.Broken() then 0 else |data|)
            && f.stream.history == if f.stream.status.Broken() then s.history else Slide(s.history, data)
  {
    hide LawfulExec, LawfulProgram, LawfulFlush, Matched, Slide;
    SlideNothing(s.history);
    if !s.status.Broken() && data != [] {
      ZeroLatched(if s.offset == 0 then r.zero else None, CoreOf(s, data), t, h);
    }
  }

  lemma SlideNothing(history: seq<Byte>)
    ensures Slide(history, []) == history
  {
  }

  lemma StillLatched(c: Status, t: seq<Event>, h: Handler)
    ensures Latched(c, t, h, t, c)
  {
  }

  lemma ZeroLatched(f: Option<Hook>, c: Core, t: seq<Event>, h: Handler)
    requires f.Some? ==> LawfulProgram(f.value)
    requires !c.status.Broken()
    ensures var o := Run(f, c, t, h); && Latched(c.status, t, h, o.trace, o.status)
                                      && (o.halt ==> o.status.Broken())
                                      && (!o.halt ==> !Stopped(|t|, o.trace, h))
  {
    RunLatched(f, c, t, h);
    ProgramHalts(f, c, t, h);
  }

  lemma NotStopped(c: Core, t: seq<Event>, h: Handler, z: Outcome, o: Outcome)
    requires Latched(c.status, t, h, z.trace, z.status) && !Stopped(|t|, z.trace, h)
    requires Latched(z.status, z.trace, h, o.trace, o.status)
    ensures Latched(c.status, t, h, o.trace, o.status)
  {
    QuietTwice(|t|, z.trace, o.trace, h);
    if |o.trace| == |z.trace| {
      assert o.trace == z.trace;
    }
  }

  lemma EodLatched(r: Rose, s: Stream, h: Handler, t: seq<Event>, left: Status)
    requires Lawful(r) && !s.status.Broken()
    ensures var e := Eod(r, s, h, t, left); Latched(s.status, t, h, e.trace, e.left)
  {
    hide LawfulExec, LawfulProgram, LawfulFlush, Latched, Flushed, EodMatched;
    var c := CoreOf(s, []);
    EodMatchedLatched(r, c, t, h);
    var m := EodMatched(r, c, t, h);
    if !m.halt {
      FlushLatched(r.flush, After(c, m), m.trace, h);
      var f := Flushed(r.flush, After(c, m), m.trace, h);
      LatchedTwice(c.status, t, h, m.trace, m.status, f.trace, f.status);
      FlushLatched(r.lastFlush, After(c, f), f.trace, h);
      var l := Flushed(r.lastFlush, After(c, f), f.trace, h);
      LatchedTwice(c.status, t, h, f.trace, f.status, l.trace, l.status);
    }
  }

  lemma EodMatchedLatched(r: Rose, c: Core, t: seq<Event>, h: Handler)
    requires Lawful(r) && !c.status.Broken()
    ensures var o := EodMatched(r, c, t, h); Latched(c.status, t, h, o.trace, o.status)
  {
    hide LawfulExec, LawfulProgram, LawfulFlush, Latched;
    if c.offset == 0 {
      ZeroLatched(r.eodZero, c, t, h);
    } else {
      ZeroLatched(r.eod, c, t, h);
      var b := Run(r.eod, c, t, h);
      if !b.halt && !b.status.Broken() {
        RunLatched(r.eodExec, After(c, b), b.trace, h);
        NotStopped(c, t, h, b, Run(r.eodExec, After(c, b), b.trace, h));
      }
    }
  }

  /** The latch over any run of scans: callbacks stop for good at the first request to stop. */
  lemma {:induction false} RunLatchedThroughout(r: Rose, s: Stream, blocks: seq<seq<Byte>>, h: Handler, t: seq<Event>,
                                                left: Status)
    requires Lawful(r)
    ensures var f := ScanAll(r, s, blocks, h, t, left);
            && Latched(s.status, t, h, f.trace, f.stream.status)
            && (s.status.Broken() ==> f == Step(s, t, left, Success))
    decreases |blocks|
  {
    hide Latched, Scan, Lawful;
    if blocks == [] {
      StillLatched(s.status, t, h);
    } else {
      ScanLatched(r, s, blocks[0], h, t, left);
      var f := Scan(r, s, blocks[0], h, t, left);
      RunLatchedThroughout(r, f.stream, blocks[1..], h, f.trace, f.left);
      var g := ScanAll(r, f.stream, blocks[1..], h, f.trace, f.left);
      LatchedTwice(s.status, t, h, f.trace, f.stream.status, g.trace, g.stream.status);
    }
  }

  /** The latch over a stream's whole life: any scans, then end of data. */
  lemma LifeLatched(r: Rose, s: Stream, blocks: seq<seq<Byte>>, h: Handler, t: seq<Event>, left: Status)
    requires Lawful(r)
    ensures var f := ScanAll(r, s, blocks, h, t, left);
            var e := Eod(r, f.stream, h, f.trace, f.left);
            && t <= e.trace && QuietAfterStop(|t|, e.trace, h)
            && (f.stream.status.Broken() ==> e.trace == f.trace)
  {
    hide Lawful;
    RunLatchedThroughout(r, s, blocks, h, t, left);
    var f := ScanAll(r, s, blocks, h, t, left);
    if !f.stream.status.Broken() {
      EodLatched(r, f.stream, h, f.trace, f.left);
      var e := Eod(r, f.stream, h, f.trace, f.left);
      LatchedTwice(s.status, t, h, f.trace, f.stream.status, e.trace, e.left);
    }
  }

  // Reset ------------------------------------------------------------------------------------------------------

  /** Streams that differ only in history bytes no engine is shown. */
  predicate Alike(a: Stream, b: Stream) {
    && a.offset == b.offset && a.status == b.status && a.engine == b.engine && |a.history| == |b.history|
    && Live(a) == Live(b)
  }

  lemma SlideAlike(a: Stream, b: Stream, data: seq<Byte>, status: Status, engine: Engine)
    requires Alike(a, b)
    ensures Alike(Stream(a.offset + |data|, status, Slide(a.history, data), engine),
                  Stream(b.offset + |data|, status, Slide(b.history, data), engine))
  {
    var n, live := |a.history|, Min(|a.history|, a.offset);
    var m := Min(n, a.offset + |data|);
    forall i: nat | n - m <= i < n
      ensures Slide(a.history, data)[i] == Slide(b.history, data)[i]
    {
      if i + |data| < n {
        assert Live(a)[i + |data| - (n - live)] == a.history[i + |data|];
        assert Live(b)[i + |data| - (n - live)] == b.history[i + |data|];
      }
    }
  }

  /** A reset stream, whatever its old history bytes, matches like a newly opened one for ever after. */
  lemma {:induction false} AlikeRuns(r: Rose, a: Stream, b: Stream, blocks: seq<seq<Byte>>, h: Handler, t: seq<Event>,
                                     left: Status)
    requires Alike(a, b)
    ensures var f, g := ScanAll(r, a, blocks, h, t, left), ScanAll(r, b, blocks, h, t, left);
            && Alike(f.stream, g.stream) && f.trace == g.trace && f.left == g.left
            && Eod(r, f.stream, h, f.trace, f.left) == Eod(r, g.stream, h, g.trace, g.left)
    decreases |blocks|
  {
    hide Slide, Alike, Matched, EodMatched, Flushed;
    if blocks == [] {
      EodAlike(r, a, b, h, t, left);
    } else {
      ScanAlike(r, a, b, blocks[0], h, t, left);
      var f, g := Scan(r, a, blocks[0], h, t, left), Scan(r, b, blocks[0], h, t, left);
      AlikeRuns(r, f.stream, g.stream, blocks[1..], h, f.trace, f.left);
    }
  }

  lemma ScanAlike(r: Rose, a: Stream, b: Stream, data: seq<Byte>, h: Handler, t: seq<Event>, left: Status)
    requires Alike(a, b)
    ensures var f, g := Scan(r, a, data, h, t, left), Scan(r, b, data, h, t, left);
            Alike(f.stream, g.stream) && f.trace == g.trace && f.left == g.left && f.code == g.code
  {
    hide Slide, Matched, Alike, CoreOf, Live, Run;
    AlikeParts(a, b, data);
    var f := Scan(r, a, data, h, t, left);
    SlideAlike(a, b, data, f.stream.status, f.stream.engine);
    UpdateAlike(a, b, f.stream.status, f.stream.engine);
  }

  lemma AlikeParts(a: Stream, b: Stream, data: seq<Byte>)
    requires Alike(a, b)
    ensures a.offset == b.offset && a.status == b.status && CoreOf(a, data) == CoreOf(b, data)
  {
  }

  lemma UpdateAlike(a: Stream, b: Stream, status: Status, engine: Engine)
    requires Alike(a, b)
    ensures Alike(a.(status := status, engine := engine), b.(status := status, engine := engine))
  {
  }

  lemma EodAlike(r: Rose, a: Stream, b: Stream, h: Handler, t: seq<Event>, left: Status)
    requires Alike(a, b)
    ensures Eod(r, a, h, t, left) == Eod(r, b, h, t, left)
  {
    hide EodMatched, Flushed;
  }
}
