/** Runs over any number of streams of one engine. */
module StreamSessions {
  import opened Common
  import opened StreamSpec
  import opened StreamRuntime

  datatype Op = Open(memory: nat -> Byte) | Write(i: nat, data: seq<Byte>) | Reset(i: nat) | Duplicate(i: nat)
              | Overwrite(i: nat, j: nat)

  /** The streams of a run, the completed writes of each since it was opened or reset, the callbacks made so far, and
      the status left in scratch. */
  datatype Session = Session(streams: seq<Stream>, writes: seq<seq<seq<Byte>>>, trace: seq<Event>, left: Status)
  {
    predicate Has(i: nat) { i < |streams| && i < |writes| }

    function Added(s: Stream, w: seq<seq<Byte>>): Session {
      this.(streams := streams + [s], writes := writes + [w])
    }

    function Changed(i: nat, s: Stream, w: seq<seq<Byte>>): Session
      requires Has(i)
    {
      this.(streams := streams[i := s], writes := writes[i := w])
    }
  }

  /** One operation. A write is completed exactly when the stream is usable after it; a reset or an overwriting takes
      effect exactly when the call succeeds; indices that name no stream do nothing. */
  function Next(r: Rose, onEvent: Option<Handler>, q: Session, op: Op): Session {
    match op
    case Open(memory) => q.Added(Opened(r, InitHistory(r.historyRequired, memory)), [])
    case Duplicate(i) => if q.Has(i) then q.Added(q.streams[i], q.writes[i]) else q
    case Write(i, data) =>
      if !q.Has(i) then q
      else
        var f := Scan(r, q.streams[i], data, Effective(onEvent), q.trace, q.left);
        q.Changed(i, f.stream, if f.stream.status.Broken() then q.writes[i] else q.writes[i] + [data])
         .(trace := f.trace, left := f.left)
    case Reset(i) =>
      if !q.Has(i) then q else Parted(r, onEvent, q, i, Opened(r, q.streams[i].history), [])
    case Overwrite(i, j) =>
      if !q.Has(i) || !q.Has(j) || i == j then q else Parted(r, onEvent, q, i, q.streams[j], q.writes[j])
  }

  /** Stream i reports end of data and, if that leaves no error, gives way to another. */
  function Parted(r: Rose, onEvent: Option<Handler>, q: Session, i: nat, s: Stream, w: seq<seq<Byte>>): Session
    requires q.Has(i)
  {
    var e := Parting(r, q.streams[i], onEvent, q.trace, q.left);
    (if PartingCode(onEvent, e) == Success then q.Changed(i, s, w)
     else q.Changed(i, q.streams[i].(engine := e.engine), q.writes[i])).(trace := e.trace, left := e.left)
  }

  /** A run of operations from no streams. */
  function After(r: Rose, onEvent: Option<Handler>, ops: seq<Op>, left: Status): Session {
    if ops == [] then Session([], [], [], left)
    else Next(r, onEvent, After(r, onEvent, ops[..|ops| - 1], left), ops[|ops| - 1])
  }

  function Concat(blocks: seq<seq<Byte>>): seq<Byte> {
    if blocks == [] then [] else Concat(blocks[..|blocks| - 1]) + blocks[|blocks| - 1]
  }

  lemma ConcatOne(blocks: seq<seq<Byte>>, b: seq<Byte>)
    ensures Concat(blocks + [b]) == Concat(blocks) + b
  {
    assert (blocks + [b])[..|blocks|] == blocks;
  }

  /** The history invariant of one stream. */
  ghost predicate Remembers(r: Rose, s: Stream, writes: seq<seq<Byte>>) {
    && |s.history| == r.historyRequired && s.offset == |Concat(writes)|
    && Live(s) == Last(Concat(writes), Min(r.historyRequired, s.offset))
  }

  ghost predicate AllRemember(r: Rose, q: Session) {
    && |q.streams| == |q.writes|
    && forall i :: 0 <= i < |q.streams| ==> Remembers(r, q.streams[i], q.writes[i])
  }

  lemma RemembersOpened(r: Rose, history: seq<Byte>)
    requires |history| == r.historyRequired
    ensures Remembers(r, Opened(r, history), [])
  {
  }

  lemma RemembersScan(r: Rose, s: Stream, writes: seq<seq<Byte>>, data: seq<Byte>, h: Handler, t: seq<Event>, left: Status)
    requires Lawful(r) && Remembers(r, s, writes)
    ensures var f := Scan(r, s, data, h, t, left);
            Remembers(r, f.stream, if f.stream.status.Broken() then writes else writes + [data])
  {
    hide Lawful, Scan, Slide, Concat;
    TakenIffUsable(r, s, data, h, t, left);
    ConcatOne(writes, data);
    SlideKeepsTail(Concat(writes), s.history, s.offset, data);
  }

  lemma RemembersEngine(r: Rose, s: Stream, writes: seq<seq<Byte>>, engine: Engine)
    requires Remembers(r, s, writes)
    ensures Remembers(r, s.(engine := engine), writes)
  {
  }

  lemma NextRemembers(r: Rose, onEvent: Option<Handler>, q: Session, op: Op)
    requires Lawful(r) && AllRemember(r, q)
    ensures AllRemember(r, Next(r, onEvent, q, op))
  {
    hide Lawful, Scan, Parting, Opened, Concat, Remembers;
    match op
    case Open(memory) => RemembersOpened(r, InitHistory(r.historyRequired, memory));
    case Duplicate(i) =>
    case Write(i, data) =>
      if q.Has(i) {
        RemembersScan(r, q.streams[i], q.writes[i], data, Effective(onEvent), q.trace, q.left);
      }
    case Reset(i) =>
      if q.Has(i) {
        HistoryLength(r, q.streams[i], q.writes[i]);
        RemembersOpened(r, q.streams[i].history);
        RemembersEngine(r, q.streams[i], q.writes[i], Parting(r, q.streams[i], onEvent, q.trace, q.left).engine);
      }
    case Overwrite(i, j) =>
      if q.Has(i) {
        RemembersEngine(r, q.streams[i], q.writes[i], Parting(r, q.streams[i], onEvent, q.trace, q.left).engine);
      }
  }

  lemma HistoryLength(r: Rose, s: Stream, writes: seq<seq<Byte>>)
    requires Remembers(r, s, writes)
    ensures |s.history| == r.historyRequired
  {
  }

  /** Over every run: the offset is the length of the completed writes since the stream was opened or reset, and the
      live history is the end of their concatenation. */
  lemma {:induction false} RunRemembers(r: Rose, onEvent: Option<Handler>, ops: seq<Op>, left: Status)
    requires Lawful(r)
    ensures AllRemember(r, After(r, onEvent, ops, left))
    decreases |ops|
  {
    hide Lawful, Next;
    if ops != [] {
      RunRemembers(r, onEvent, ops[..|ops| - 1], left);
      NextRemembers(r, onEvent, After(r, onEvent, ops[..|ops| - 1], left), ops[|ops| - 1]);
    }
  }

  /** A broken stream is reset, with a callback, if and only if scratch carries no error; else it stays as it is. */
  lemma BrokenResetIff(r: Rose, h: Handler, q: Session, i: nat)
    requires q.Has(i) && q.streams[i].status.Broken()
    ensures var q' := Next(r, Some(h), q, Op.Reset(i));
            && (q'.streams[i] == Opened(r, q.streams[i].history) <==> !q.left.error)
            && (q.left.error ==> q' == q)
  {
    BrokenEnds(r, q.streams[i], h, q.trace, q.left);
    assert q.streams[i].(engine := q.streams[i].engine) == q.streams[i];
    assert q.streams[i := q.streams[i]] == q.streams && q.writes[i := q.writes[i]] == q.writes;
  }

  /** An engine that reports once per write, but fails on a zero byte. */
  function FailOnZero(c: Core, t: seq<Event>, h: Handler): Outcome {
    if c.data != [] && c.data[0] == 0 then Outcome(c.engine, c.status.(error := true), t, false) else ReportOnce(c, t, h)
  }

  const FRAGILE := Rose(0, [], None, FailOnZero, None, None, None, None, None)

  lemma FragileLawful()
    ensures Lawful(FRAGILE)
  {
    assert LawfulExec(FailOnZero) by {
      forall c, t, h
        ensures WellBehaved(c, t, h, FailOnZero(c, t, h))
      {
      }
    }
  }

  /** Two streams; the callback stops the first, the engine fails on the second; then the first is reset. */
  function FailedReset(memory: nat -> Byte): seq<Op> {
    [Open(memory), Open(memory), Write(0, [1]), Write(1, [0]), Op.Reset(0)]
  }

  lemma OneMore(r: Rose, onEvent: Option<Handler>, ops: seq<Op>, op: Op, left: Status)
    ensures After(r, onEvent, ops + [op], left) == Next(r, onEvent, After(r, onEvent, ops, left), op)
  {
    assert (ops + [op])[..|ops|] == ops;
  }

  /** The first stream is still stopped, and the reset has no effect. */
  lemma ResetWithoutEffect(memory: nat -> Byte)
    ensures Lawful(FRAGILE)
    ensures var ops := FailedReset(memory);
            var q := After(FRAGILE, Some(_ => true), ops, CLEAN);
            q == After(FRAGILE, Some(_ => true), ops[..4], CLEAN) && |q.streams| == 2 && q.streams[0].status.terminated
  {
    hide After, Next, Opened;
    FragileLawful();
    var h: Handler := _ => true;
    var ops, cb := FailedReset(memory), Some(h);
    TwoOpened(memory, h);
    var q0 := After(FRAGILE, cb, ops[..2], CLEAN);
    FirstStopped(q0, h);
    assert ops[..3] == ops[..2] + [ops[2]];
    OneMore(FRAGILE, cb, ops[..2], ops[2], CLEAN);
    var q1 := After(FRAGILE, cb, ops[..3], CLEAN);
    SecondFails(q1, h);
    assert ops[..4] == ops[..3] + [ops[3]];
    OneMore(FRAGILE, cb, ops[..3], ops[3], CLEAN);
    assert ops == ops[..4] + [ops[4]];
    OneMore(FRAGILE, cb, ops[..4], ops[4], CLEAN);
    BrokenResetIff(FRAGILE, h, After(FRAGILE, cb, ops[..4], CLEAN), 0);
  }

  lemma TwoOpened(memory: nat -> Byte, h: Handler)
    ensures After(FRAGILE, Some(h), FailedReset(memory)[..2], CLEAN)
         == Session([Opened(FRAGILE, []), Opened(FRAGILE, [])], [[], []], [], CLEAN)
  {
    hide After, Scan, Parting;
    var ops, cb := FailedReset(memory), Some(h);
    assert InitHistory(0, memory) == [];
    assert ops[..2] == [] + [ops[0]] + [ops[1]];
    OneMore(FRAGILE, cb, [], ops[0], CLEAN);
    OneMore(FRAGILE, cb, [] + [ops[0]], ops[1], CLEAN);
    assert After(FRAGILE, cb, [], CLEAN) == Session([], [], [], CLEAN) by { NoOps(FRAGILE, cb); }
  }

  lemma NoOps(r: Rose, onEvent: Option<Handler>)
    ensures After(r, onEvent, [], CLEAN) == Session([], [], [], CLEAN)
  {
  }

  lemma FirstStopped(q: Session, h: Handler)
    requires q == Session([Opened(FRAGILE, []), Opened(FRAGILE, [])], [[], []], [], CLEAN)
    requires forall t :: h(t)
    ensures var q' := Next(FRAGILE, Some(h), q, Write(0, [1]));
            && |q'.streams| == |q'.writes| == 2 && q'.streams[0].status.terminated
            && q'.streams[1] == Opened(FRAGILE, [])
  {
    var s, data: seq<Byte> := q.streams[0], [1];
    assert Live(s) == [];
    var f := Scan(FRAGILE, s, data, h, [], CLEAN);
    assert f.stream.status.terminated;
  }

  lemma SecondFails(q: Session, h: Handler)
    requires |q.streams| == |q.writes| == 2 && q.streams[1] == Opened(FRAGILE, [])
    ensures var q' := Next(FRAGILE, Some(h), q, Write(1, [0]));
            |q'.streams| == |q'.writes| == 2 && q'.left.error && q'.streams[0] == q.streams[0]
  {
    var s, data: seq<Byte> := q.streams[1], [0];
    var f := Scan(FRAGILE, s, data, h, q.trace, q.left);
    assert f.left.error;
  }

  /** No two streams share an object or a history buffer. */
  ghost predicate Apart(pool: seq<StreamObject>) {
    forall i, j :: 0 <= i < j < |pool| ==> pool[i] != pool[j] && pool[i].history != pool[j].history
  }

  ghost function Buffers(pool: seq<StreamObject>): set<object> {
    set s | s in pool :: s.history
  }

  /** The pool holds these streams. */
  ghost predicate Holds(pool: seq<StreamObject>, streams: seq<Stream>, rose: Rose)
    reads pool, Buffers(pool)
  {
    |pool| == |streams| && forall i :: 0 <= i < |pool| ==> HoldsOne(pool[i], streams[i], rose)
  }

  ghost predicate HoldsOne(s: StreamObject, value: Stream, rose: Rose)
    reads s, s.history
  {
    s.Valid() && s.rose == rose && s.roseAddress == 0 && s.Value() == value
  }

  /** One operation on a pool of stream objects. */
  method Apply(pool: seq<StreamObject>, op: Op, rose: Rose, scratch: Scratch, onEvent: Option<Handler>, t: seq<Event>,
               ghost q: Session)
    returns (pool': seq<StreamObject>, trace: seq<Event>)
    requires Apart(pool) && Holds(pool, q.streams, rose) && |q.writes| == |pool| && !scratch.inUse
    requires q.trace == t && q.left == scratch.status
    modifies scratch, pool, Buffers(pool)
    ensures pool <= pool' && Apart(pool') && !scratch.inUse
    ensures forall k :: |pool| <= k < |pool'| ==> fresh(pool'[k]) && fresh(pool'[k].history)
    ensures var q' := Next(rose, onEvent, q, op);
            && Holds(pool', q'.streams, rose) && |q'.writes| == |pool'|
            && trace == q'.trace && scratch.status == q'.left
  {
    hide StreamSpec.Scan, Parting, StreamObject.Valid, Opened, InitHistory;
    pool', trace := pool, t;
    if op.Open? {
      var s := new StreamObject(rose, 0, op.memory);
      pool' := pool + [s];
    } else if op.i >= |pool| {
      return;
    } else if op.Duplicate? {
      assert HoldsOne(pool[op.i], q.streams[op.i], rose);
      var s := new StreamObject.Copy(pool[op.i]);
      pool' := pool + [s];
    } else if !op.Overwrite? || (op.j < |pool| && op.i != op.j) {
      trace := Change(pool, op, rose, scratch, onEvent, t, q);
    }
  }

  /** An operation that changes one stream of the pool. */
  method Change(pool: seq<StreamObject>, op: Op, rose: Rose, scratch: Scratch, onEvent: Option<Handler>, t: seq<Event>,
                ghost q: Session)
    returns (trace: seq<Event>)
    requires Apart(pool) && Holds(pool, q.streams, rose) && |q.writes| == |pool| && !scratch.inUse
    requires q.trace == t && q.left == scratch.status
    requires !op.Open? && !op.Duplicate? && op.i < |pool| && (op.Overwrite? ==> op.j < |pool| && op.i != op.j)
    modifies scratch, pool[op.i], pool[op.i].history
    ensures !scratch.inUse
    ensures var q' := Next(rose, onEvent, q, op);
            Holds(pool, q'.streams, rose) && |q'.writes| == |pool| && trace == q'.trace && scratch.status == q'.left
  {
    hide StreamSpec.Scan, Parting, StreamObject.Valid, Opened;
    var s := pool[op.i];
    ghost var before := q.streams[op.i];
    assert HoldsOne(s, before, rose);
    var code;
    if op.Write? {
      code, trace := s.Scan(scratch, op.data, onEvent, t);
    } else if op.Reset? {
      code, trace := s.Reset(scratch, onEvent, t);
    } else {
      assert HoldsOne(pool[op.j], q.streams[op.j], rose);
      code, trace := s.ResetAndCopy(pool[op.j], scratch, onEvent, t);
    }
    assert HoldsOne(s, Next(rose, onEvent, q, op).streams[op.i], rose);
  }

  /** Any run of operations, from no streams: the objects hold exactly the streams of the run, and every one of them
      the offset and history of its own completed writes. */
  method Drive(ops: seq<Op>, rose: Rose, scratch: Scratch, onEvent: Option<Handler>)
    returns (pool: seq<StreamObject>, trace: seq<Event>)
    requires Lawful(rose) && !scratch.inUse
    modifies scratch
    ensures var q := After(rose, onEvent, ops, old(scratch.status));
            && Holds(pool, q.streams, rose) && trace == q.trace && scratch.status == q.left && AllRemember(rose, q)
            && forall i :: 0 <= i < |pool| ==>
                 && pool[i].offset == |Concat(q.writes[i])|
                 && Live(pool[i].Value()) == Last(Concat(q.writes[i]), Min(rose.historyRequired, pool[i].offset))
  {
    hide Lawful, Apart, Next;
    ghost var left := scratch.status;
    pool, trace := [], [];
    NoneApart();
    for k := 0 to |ops|
      invariant Apart(pool) && !scratch.inUse
      invariant forall s :: s in pool ==> fresh(s) && fresh(s.history)
      invariant var q := After(rose, onEvent, ops[..k], left);
                Holds(pool, q.streams, rose) && |q.writes| == |pool| && trace == q.trace && scratch.status == q.left
    {
      assert ops[..k + 1][..k] == ops[..k];
      pool, trace := Apply(pool, ops[k], rose, scratch, onEvent, trace, After(rose, onEvent, ops[..k], left));
    }
    assert ops[..|ops|] == ops;
    RunRemembers(rose, onEvent, ops, left);
    ghost var q := After(rose, onEvent, ops, left);
    forall i | 0 <= i < |pool|
      ensures && pool[i].offset == |Concat(q.writes[i])|
              && Live(pool[i].Value()) == Last(Concat(q.writes[i]), Min(rose.historyRequired, pool[i].offset))
    {
      assert HoldsOne(pool[i], q.streams[i], rose) && Remembers(rose, q.streams[i], q.writes[i]);
    }
  }

  lemma NoneApart()
    ensures Apart([])
  {
  }
}
