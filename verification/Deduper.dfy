/** Deduplication of reports with two logs that alternate by the parity of the end offset. */
module Deduper {
  import opened Common
  import opened DedupeSpec

  const U64_MAX: nat := 0xFFFF_FFFF_FFFF_FFFF

  datatype DedupeResult = DedupeContinue | DedupeSkip | DedupeHalt

  /** An external report: key and end. */
  datatype Key = Key(dkey: nat, end: nat)

  /** One call: the offset reached, the reported start and end, the key if any, and how to treat it. */
  datatype Call = Call(offset: nat, from: nat, to: nat, dkey: Option<nat>, external: bool, quashSom: bool)
  {
    /** Goes through the logs of external reports. */
    predicate ChecksLog() { dkey.Some? && (external || quashSom) }

    /** Is kept for the flush. */
    predicate KeepsStart(hasSom: bool) { dkey.Some? && !external && !quashSom && hasSom }
  }

  /** The log holds exactly the keys recorded with end t, and their leftmost starts. */
  ghost predicate SomLogIs(log: set<nat>, starts: seq<nat>, evs: seq<SomReport>, t: nat, n: nat) {
    && |starts| == n
    && (forall d: nat :: d in log ==> d < n)
    && (forall d: nat :: d < n ==> (d in log <==> Recorded(evs, d, t)))
    && (forall d: nat :: d in log ==> d < n && Recorded(evs, d, t) && starts[d] == Leftmost(evs, d, t))
  }

  /** The start of key d, lowered to `from` if the key is already in the log, else set to it. */
  function WithStart(starts: seq<nat>, log: set<nat>, d: nat, from: nat): seq<nat>
    requires d < |starts|
  {
    starts[d := if d in log && starts[d] < from then starts[d] else from]
  }

  ghost predicate EndsUpTo(evs: seq<SomReport>, ext: set<Key>, t: nat) {
    && (forall i :: 0 <= i < |evs| ==> evs[i].end <= t)
    && (forall k :: k in ext ==> k.end <= t)
  }

  /** Between calls: the log of end `cur` and that of end `cur - 1` are exact, everything older is out. */
  ghost predicate SomExact(somLog: seq<set<nat>>, starts: seq<seq<nat>>, evs: seq<SomReport>, cur: nat, dirty: nat,
                           out: seq<SomReport>, n: nat)
  {
    && |somLog| == 2 && |starts| == 2 && |starts[0]| == n && |starts[1]| == n
    && SomLogIs(somLog[cur % 2], starts[cur % 2], evs, cur, n)
    && (cur > 0 ==> SomLogIs(somLog[(cur - 1) % 2], starts[(cur - 1) % 2], evs, cur - 1, n))
    && (cur == 0 ==> somLog[1] == {})
    && out == EmitBelow(evs, if cur == 0 then 0 else cur - 1, n)
    && (dirty % 2 == 0 ==> somLog[(cur + 1) % 2] == {})
    && (dirty < 2 ==> somLog[cur % 2] == {})
  }

  /** The plain logs: exact for the current end and the one before, stale bits allowed in the odd log at end 0. */
  ghost predicate LogExact(log: seq<set<nat>>, ext: set<Key>, cur: nat) {
    && |log| == 2
    && LogIs(log[cur % 2], ext, cur)
    && (cur > 0 ==> LogIs(log[(cur - 1) % 2], ext, cur - 1))
  }

  ghost predicate LogIs(log: set<nat>, ext: set<Key>, t: nat) {
    forall d: nat :: d in log <==> Key(d, t) in ext
  }

  /** No report so far was answered by a request to stop. */
  ghost predicate Quiet(halts: seq<SomReport> -> bool, out: seq<SomReport>) {
    forall k: nat :: 0 < k <= |out| ==> !halts(out[..k])
  }

  /** The last report, and none before it, was answered by a request to stop. */
  ghost predicate StopsAtLast(halts: seq<SomReport> -> bool, out: seq<SomReport>) {
    out != [] && halts(out) && Quiet(halts, out[..|out| - 1])
  }

  lemma QuietGrows(halts: seq<SomReport> -> bool, out: seq<SomReport>, r: SomReport)
    requires Quiet(halts, out)
    ensures if halts(out + [r]) then StopsAtLast(halts, out + [r]) else Quiet(halts, out + [r])
  {
    var more := out + [r];
    assert more[..|more| - 1] == out && more[..|more|] == more;
    forall k: nat | 0 < k <= |out|
      ensures more[..k] == out[..k]
    {
    }
  }

  class MatchDeduper {
    const dkeyCount: nat
    const hasSom: bool
    /** The user callback: whether the last of the reports raised so far asks to stop. */
    const userHalts: seq<SomReport> -> bool
    var log: seq<set<nat>>
    var somLog: seq<set<nat>>
    var starts: seq<seq<nat>>
    var cur: nat
    var dirty: nat
    /** Reports raised by flushing the start-of-match logs. */
    var out: seq<SomReport>

    /** What has been recorded since the scan began. */
    ghost var evs: seq<SomReport>
    ghost var ext: set<Key>

    ghost predicate Sized()
      reads this
    {
      && |log| == 2 && |somLog| == 2 && |starts| == 2
      && |starts[0]| == dkeyCount && |starts[1]| == dkeyCount
      && cur <= U64_MAX && dirty < 4
    }

    ghost predicate Valid()
      reads this
    {
      && SomValid()
      && (cur < U64_MAX ==> LogExact(log, ext, cur))
    }

    ghost predicate SomValid()
      reads this
    {
      && Sized()
      && (cur == U64_MAX ==> evs == [] && ext == {} && out == [] && dirty == 1)
      && (cur < U64_MAX ==> EndsUpTo(evs, ext, cur))
      && (cur < U64_MAX && hasSom ==> SomExact(somLog, starts, evs, cur, dirty, out, dkeyCount))
      && (!hasSom ==> evs == [] && out == [])
      && Quiet(userHalts, out)
    }

    /** Scratch starts out with whatever bits are in the logs. */
    constructor (dkeyCount: nat, hasSom: bool, userHalts: seq<SomReport> -> bool,
                 log: seq<set<nat>>, somLog: seq<set<nat>>, starts: seq<seq<nat>>)
      requires |log| == 2 && |somLog| == 2 && |starts| == 2
      requires |starts[0]| == dkeyCount && |starts[1]| == dkeyCount
      ensures Valid() && this.dkeyCount == dkeyCount && this.hasSom == hasSom && this.userHalts == userHalts
      ensures evs == [] && ext == {} && out == []
    {
      this.dkeyCount := dkeyCount;
      this.hasSom := hasSom;
      this.userHalts := userHalts;
      this.log := log;
      this.somLog := somLog;
      this.starts := starts;
      cur, dirty, out := U64_MAX, 1, [];
      evs, ext := [], {};
    }

    /** Raise every report in the log for end t, then clear it; stop at the first halting callback. */
    method ClearSomLog(parity: nat, t: nat) returns (halt: bool)
      requires Sized() && parity < 2
      requires SomLogIs(somLog[parity], starts[parity], evs, t, dkeyCount) && Quiet(userHalts, out)
      modifies this`somLog, this`out
      ensures Sized()
      ensures !halt ==> out == old(out) + EmitAt(evs, t, dkeyCount) && somLog == old(somLog)[parity := {}]
      ensures !halt ==> Quiet(userHalts, out)
      ensures halt ==> out <= old(out) + EmitAt(evs, t, dkeyCount) && StopsAtLast(userHalts, out)
    {
      hide Quiet, StopsAtLast;
      ghost var before := out;
      for d := 0 to dkeyCount
        invariant somLog == old(somLog)
        invariant out == before + EmitAt(evs, t, d) && Quiet(userHalts, out)
      {
        if d in somLog[parity] {
          QuietGrows(userHalts, out, SomReport(d, starts[parity][d], t));
          out := out + [SomReport(d, starts[parity][d], t)];
          assert out == before + EmitAt(evs, t, d + 1);
          if userHalts(out) {
            EmitAtPrefix(evs, t, d + 1, dkeyCount);
            return true;
          }
        }
      }
      somLog := somLog[parity := {}];
      halt := false;
    }
  
    /** Raise the log of the end before the current one; at end 0 its offset wraps and it is empty. */
    method ClearOlder() returns (halt: bool)
      requires SomValid() && hasSom && cur < U64_MAX
      modifies this`somLog, this`out
      ensures Sized()
      ensures !halt ==> out == EmitBelow(evs, cur, dkeyCount) && somLog == old(somLog)[(cur + 1) % 2 := {}]
      ensures !halt ==> Quiet(userHalts, out)
      ensures halt ==> out <= EmitBelow(evs, cur, dkeyCount) && StopsAtLast(userHalts, out)
    {
      hide EmitAt, Quiet, StopsAtLast;
      var f := if cur == 0 then U64_MAX else cur - 1;
      if cur == 0 {
        forall d: nat ensures !Recorded(evs, d, U64_MAX) { NothingLater(evs, ext, cur, d, U64_MAX); }
        EmitNothing(evs, U64_MAX, dkeyCount);
      }
      assert f % 2 == (cur + 1) % 2;
      halt := ClearSomLog(f % 2, f);
    }

    /** Raise what can no longer change once the scan moves on to `offset`. */
    method FlushStoredSomMatches(offset: nat) returns (halt: bool)
      requires SomValid() && hasSom
      requires cur == U64_MAX || (cur < offset <= U64_MAX)
      modifies this`somLog, this`out, this`dirty
      ensures Sized()
      ensures !halt && old(cur) == U64_MAX ==> somLog == [{}, {}] && dirty == 0 && out == []
      ensures !halt && old(cur) < U64_MAX && offset == cur + 1 ==>
                && somLog == old(somLog)[offset % 2 := {}] && out == EmitBelow(evs, cur, dkeyCount)
                && dirty < 2 && (dirty == 0 ==> somLog[cur % 2] == {})
                && SomLogIs(somLog[cur % 2], starts[cur % 2], evs, cur, dkeyCount)
      ensures !halt && old(cur) < U64_MAX && offset > cur + 1 ==>
                somLog == [{}, {}] && dirty == 0 && out == EmitBelow(evs, cur + 1, dkeyCount)
      ensures !halt ==> Quiet(userHalts, out)
      ensures halt ==>
                && old(cur) < U64_MAX && StopsAtLast(userHalts, out)
                && out <= EmitBelow(evs, if offset == cur + 1 then cur else cur + 1, dkeyCount)
    {
      hide SomLogIs, EmitAt, Quiet, StopsAtLast;
      if dirty == 0 {
        QuietLogs(somLog, starts, evs, ext, cur, out, dkeyCount);
        return false;
      }
      if cur == U64_MAX {
        somLog := [{}, {}];
        dirty := 0;
        return false;
      }
      halt := ClearOlder();
      if offset == cur + 1 {
        dirty := dirty / 2;
      } else {
        if !halt {
          halt := ClearSomLog(cur % 2, cur);
        }
        dirty := 0;
      }
    }
  
    /** A call that the scan may make next. */
    ghost predicate Admissible(c: Call)
      reads this
    {
      && c.offset < U64_MAX && (cur == U64_MAX || cur <= c.offset)
      && (c.to == c.offset || c.to + 1 == c.offset)
      && (c.dkey.Some? ==> c.dkey.value < dkeyCount)
      && (hasSom || c.dkey.Some?)
    }

    /** Move the logs on to a new offset. */
    method MoveTo(offset: nat) returns (halt: bool)
      requires Valid() && offset < U64_MAX && (cur == U64_MAX || cur <= offset)
      modifies this`log, this`somLog, this`out, this`dirty, this`cur
      ensures !halt ==> Valid() && cur == offset
      ensures halt ==>
                && old(cur) < offset && StopsAtLast(userHalts, out)
                && out <= EmitBelow(evs, if offset == old(cur) + 1 then old(cur) else old(cur) + 1, dkeyCount)
    {
      hide SomLogIs, SomExact, LogExact, EndsUpTo, EmitBelow, Quiet, StopsAtLast;
      halt := false;
      if offset != cur {
        ghost var log0 := log;
        if offset == (cur + 1) % (U64_MAX + 1) {
          log := log[offset % 2 := {}];
        } else {
          log := [{}, {}];
        }
        LogMoves(log0, evs, ext, cur, offset);
        if hasSom {
          halt := FlushStoredSomMatches(offset);
          if halt {
            return;
          }
          SomMoves(somLog, starts, evs, ext, cur, offset, dirty, out, dkeyCount);
        }
        StillUpTo(evs, ext, cur, offset);
        cur := offset;
      }
    }
  
    /** One report arrives. */
    method DedupeCatchup(c: Call) returns (r: DedupeResult)
      requires Valid() && Admissible(c)
      modifies this
      ensures r != DedupeHalt ==> Valid() && cur == c.offset
      ensures r != DedupeHalt && c.dkey.Some? && (c.external || c.quashSom) ==>
                && (r == DedupeContinue <==> Key(c.dkey.value, c.to) !in old(ext))
                && ext == old(ext) + {Key(c.dkey.value, c.to)} && evs == old(evs)
      ensures r != DedupeHalt && c.dkey.Some? && !c.external && !c.quashSom && hasSom ==>
                r == DedupeSkip && ext == old(ext) && evs == old(evs) + [SomReport(c.dkey.value, c.from, c.to)]
      ensures r != DedupeHalt && (c.dkey.None? || (!c.external && !c.quashSom && !hasSom)) ==>
                r == DedupeContinue && ext == old(ext) && evs == old(evs)
      ensures r == DedupeHalt ==>
                && evs == old(evs) && old(cur) < c.offset && StopsAtLast(userHalts, out)
                && out <= EmitBelow(evs, if c.offset == old(cur) + 1 then old(cur) else old(cur) + 1, dkeyCount)
    {
      hide SomExact, LogExact, EndsUpTo, EmitBelow, Quiet, StopsAtLast;
      var halt := MoveTo(c.offset);
      if halt {
        return DedupeHalt;
      }
      if c.dkey.Some? {
        var d, p := c.dkey.value, c.to % 2;
        if c.external || c.quashSom {
          LogAdds(log, evs, ext, cur, d, c.to);
          r := if d in log[p] then DedupeSkip else DedupeContinue;
          ext := ext + {Key(d, c.to)};
          log := log[p := log[p] + {d}];
          return;
        } else if hasSom {
          ghost var e := SomReport(d, c.from, c.to);
          var dirtier := if c.to != c.offset then (if dirty % 2 == 0 then dirty + 1 else dirty)
                         else (if dirty < 2 then dirty + 2 else dirty);
          SomAdds(somLog, starts, evs, ext, cur, dirty, out, dkeyCount, e);
          starts := starts[p := WithStart(starts[p], somLog[p], d, c.from)];
          somLog := somLog[p := somLog[p] + {d}];
          dirty := dirtier;
          evs := evs + [e];
          return DedupeSkip;
        }
      }
      r := DedupeContinue;
    }

    /** End of the scan: raise whatever is still in the logs. */
    method FinishScan() returns (halt: bool)
      requires Valid()
      modifies this`somLog, this`out, this`dirty
      ensures !halt && cur == U64_MAX ==> out == []
      ensures !halt && cur + 1 < U64_MAX ==> out == EmitBelow(evs, cur + 1, dkeyCount)
      ensures !halt && cur + 1 == U64_MAX ==> out == EmitBelow(evs, cur, dkeyCount)
      ensures !halt ==> Quiet(userHalts, out)
      ensures halt ==>
                && cur < U64_MAX && StopsAtLast(userHalts, out)
                && out <= EmitBelow(evs, if cur + 1 == U64_MAX then cur else cur + 1, dkeyCount)
    {
      hide SomExact, LogExact, EndsUpTo, EmitBelow, Quiet, StopsAtLast;
      halt := false;
      if hasSom {
        halt := FlushStoredSomMatches(U64_MAX);
      } else if cur < U64_MAX {
        EmitGap([], 0, cur, dkeyCount);
        EmitGap([], 0, cur + 1, dkeyCount);
        assert EmitBelow([], 0, dkeyCount) == [] by { EmitBelowNone(dkeyCount); }
      }
    }
  }

  lemma EmitBelowNone(n: nat)
    ensures EmitBelow([], 0, n) == []
  {
  }

  lemma LogAdds(log: seq<set<nat>>, evs: seq<SomReport>, ext: set<Key>, cur: nat, d: nat, to: nat)
    requires LogExact(log, ext, cur) && EndsUpTo(evs, ext, cur) && (to == cur || to + 1 == cur)
    ensures d in log[to % 2] <==> Key(d, to) in ext
    ensures LogExact(log[to % 2 := log[to % 2] + {d}], ext + {Key(d, to)}, cur)
    ensures EndsUpTo(evs, ext + {Key(d, to)}, cur)
  {
  }

  lemma SomAdds(somLog: seq<set<nat>>, starts: seq<seq<nat>>, evs: seq<SomReport>, ext: set<Key>, cur: nat, dirty: nat,
                out: seq<SomReport>, n: nat, e: SomReport)
    requires SomExact(somLog, starts, evs, cur, dirty, out, n) && EndsUpTo(evs, ext, cur) && dirty < 4
    requires e.dkey < n && (e.end == cur || e.end + 1 == cur)
    ensures var p := e.end % 2;
            var dirtier := if e.end != cur then (if dirty % 2 == 0 then dirty + 1 else dirty)
                           else (if dirty < 2 then dirty + 2 else dirty);
            && SomExact(somLog[p := somLog[p] + {e.dkey}], 
                        starts[p := WithStart(starts[p], somLog[p], e.dkey, e.start)], evs + [e], cur, dirtier, out, n)
            && EndsUpTo(evs + [e], ext, cur)
  {
    hide SomLogIs, EmitBelow;
    var p := e.end % 2;
    SomLogAdds(somLog[p], starts[p], evs, n, e);
    var t := if e.end == cur then cur - 1 else cur;
    if t >= 0 {
      SomLogKeeps(somLog[t % 2], starts[t % 2], evs, t, n, e);
    }
    EmitBelowStep(evs, e, if cur == 0 then 0 else cur - 1, n);
  }

  lemma SomLogAdds(log: set<nat>, starts: seq<nat>, evs: seq<SomReport>, n: nat, e: SomReport)
    requires SomLogIs(log, starts, evs, e.end, n) && e.dkey < n
    ensures SomLogIs(log + {e.dkey}, WithStart(starts, log, e.dkey, e.start), evs + [e], e.end, n)
  {
    hide Recorded, Leftmost;
    forall d: nat | d < n
      ensures Recorded(evs + [e], d, e.end) <==> Recorded(evs, d, e.end) || d == e.dkey
    {
      RecordedStep(evs, e, d, e.end);
    }
    forall d: nat | d < n && Recorded(evs + [e], d, e.end)
      ensures Leftmost(evs + [e], d, e.end) ==
              if d == e.dkey then (if Recorded(evs, d, e.end) && Leftmost(evs, d, e.end) < e.start
                                   then Leftmost(evs, d, e.end) else e.start)
              else Leftmost(evs, d, e.end)
    {
      LeftmostStep(evs, e, d, e.end);
    }
  }

  lemma SomLogKeeps(log: set<nat>, starts: seq<nat>, evs: seq<SomReport>, t: nat, n: nat, e: SomReport)
    requires SomLogIs(log, starts, evs, t, n) && e.end != t
    ensures SomLogIs(log, starts, evs + [e], t, n)
  {
    forall d: nat | d < n ensures Recorded(evs + [e], d, t) <==> Recorded(evs, d, t) {
      RecordedStep(evs, e, d, t);
    }
    forall d: nat | d in log ensures Recorded(evs + [e], d, t) && starts[d] == Leftmost(evs + [e], d, t) {
      RecordedStep(evs, e, d, t);
      LeftmostStep(evs, e, d, t);
    }
  }

  lemma StillUpTo(evs: seq<SomReport>, ext: set<Key>, cur: nat, offset: nat)
    requires (cur == U64_MAX && evs == [] && ext == {}) || (EndsUpTo(evs, ext, cur) && cur <= offset)
    ensures EndsUpTo(evs, ext, offset)
  {
  }

  /** The plain logs after a move. The first offset 0 wraps around from the initial value, so only the
      even log is cleared then; the odd log is not read before offset 1 clears it. */
  lemma LogMoves(log: seq<set<nat>>, evs: seq<SomReport>, ext: set<Key>, cur: nat, offset: nat)
    requires |log| == 2 && offset < U64_MAX && offset != cur && cur <= U64_MAX
    requires cur == U64_MAX ==> ext == {}
    requires cur < U64_MAX ==> LogExact(log, ext, cur) && EndsUpTo(evs, ext, cur) && cur < offset
    ensures LogExact(if offset == (cur + 1) % (U64_MAX + 1) then log[offset % 2 := {}] else [{}, {}], ext, offset)
  {
    if cur < U64_MAX {
      if offset == cur + 1 {
        LogMovesByOne(log, evs, ext, cur);
      } else {
        LogMovesFar(log, evs, ext, cur, offset);
      }
    }
  }

  lemma SomMoves(somLog: seq<set<nat>>, starts: seq<seq<nat>>, evs: seq<SomReport>, ext: set<Key>, cur: nat,
                 offset: nat, dirty: nat, out: seq<SomReport>, n: nat)
    requires |somLog| == 2 && |starts| == 2 && |starts[0]| == n && |starts[1]| == n && offset < U64_MAX && cur <= U64_MAX
    requires cur == U64_MAX ==> evs == [] && somLog == [{}, {}] && dirty == 0 && out == []
    requires cur < U64_MAX ==> EndsUpTo(evs, ext, cur) && cur < offset
    requires cur < U64_MAX && offset == cur + 1 ==>
               && SomLogIs(somLog[cur % 2], starts[cur % 2], evs, cur, n)
               && somLog[offset % 2] == {} && out == EmitBelow(evs, cur, n)
               && dirty < 2 && (dirty == 0 ==> somLog[cur % 2] == {})
    requires cur < U64_MAX && offset > cur + 1 ==> somLog == [{}, {}] && dirty == 0 && out == EmitBelow(evs, cur + 1, n)
    ensures SomExact(somLog, starts, evs, offset, dirty, out, n)
  {
    if cur == U64_MAX {
      SomStarts(somLog, starts, offset, n);
    } else if offset == cur + 1 {
      SomMovesByOne(somLog, starts, evs, ext, cur, dirty, out, n);
    } else {
      SomMovesFar(somLog, starts, evs, ext, cur, offset, out, n);
    }
  }

  lemma {:induction false} EmitBelowPrefix(evs: seq<SomReport>, a: nat, b: nat, n: nat)
    requires a <= b
    ensures EmitBelow(evs, a, n) <= EmitBelow(evs, b, n)
    decreases b
  {
    if a < b { EmitBelowPrefix(evs, a, b - 1, n); }
  }

  /** With no dirty bit both logs are empty, and nothing is left to raise. */
  lemma QuietLogs(somLog: seq<set<nat>>, starts: seq<seq<nat>>, evs: seq<SomReport>, ext: set<Key>, cur: nat,
                  out: seq<SomReport>, n: nat)
    requires SomExact(somLog, starts, evs, cur, 0, out, n) && EndsUpTo(evs, ext, cur)
    ensures somLog == [{}, {}]
    ensures out == EmitBelow(evs, cur, n) == EmitBelow(evs, cur + 1, n)
  {
    assert somLog[0] == {} && somLog[1] == {};
    EmitNothing(evs, cur, n);
    if cur > 0 { EmitNothing(evs, cur - 1, n); }
  }

  /** Moving on by one end: only the log that is reused has to be cleared. */
  lemma LogMovesByOne(log: seq<set<nat>>, evs: seq<SomReport>, ext: set<Key>, cur: nat)
    requires LogExact(log, ext, cur) && EndsUpTo(evs, ext, cur)
    ensures LogExact(log[(cur + 1) % 2 := {}], ext, cur + 1)
  {
    assert cur % 2 != (cur + 1) % 2;
  }

  /** After a gap both logs start afresh. */
  lemma LogMovesFar(log: seq<set<nat>>, evs: seq<SomReport>, ext: set<Key>, cur: nat, offset: nat)
    requires |log| == 2 && EndsUpTo(evs, ext, cur) && cur + 1 < offset
    ensures LogExact([{}, {}], ext, offset)
  {
  }

  lemma NothingLater(evs: seq<SomReport>, ext: set<Key>, cur: nat, d: nat, t: nat)
    requires EndsUpTo(evs, ext, cur) && t > cur
    ensures !Recorded(evs, d, t)
  {
  }

  lemma SomMovesByOne(somLog: seq<set<nat>>, starts: seq<seq<nat>>, evs: seq<SomReport>, ext: set<Key>, cur: nat,
                      dirty: nat, out: seq<SomReport>, n: nat)
    requires |somLog| == 2 && |starts| == 2 && |starts[0]| == n && |starts[1]| == n && EndsUpTo(evs, ext, cur)
    requires SomLogIs(somLog[cur % 2], starts[cur % 2], evs, cur, n)
    requires somLog[(cur + 1) % 2] == {} && out == EmitBelow(evs, cur, n)
    requires dirty < 2 && (dirty == 0 ==> somLog[cur % 2] == {})
    ensures SomExact(somLog, starts, evs, cur + 1, dirty, out, n)
  {
    var t := cur + 1;
    forall d: nat ensures !Recorded(evs, d, t) { NothingLater(evs, ext, cur, d, t); }
    assert (cur + 2) % 2 == cur % 2;
  }

  lemma SomMovesFar(somLog: seq<set<nat>>, starts: seq<seq<nat>>, evs: seq<SomReport>, ext: set<Key>, cur: nat,
                    offset: nat, out: seq<SomReport>, n: nat)
    requires |somLog| == 2 && |starts| == 2 && |starts[0]| == n && |starts[1]| == n && EndsUpTo(evs, ext, cur)
    requires cur + 1 < offset && somLog == [{}, {}] && out == EmitBelow(evs, cur + 1, n)
    ensures SomExact(somLog, starts, evs, offset, 0, out, n)
  {
    forall d: nat, t: nat | t > cur ensures !Recorded(evs, d, t) { NothingLater(evs, ext, cur, d, t); }
    EmitGap(evs, cur + 1, offset - 1, n);
  }

  lemma SomStarts(somLog: seq<set<nat>>, starts: seq<seq<nat>>, offset: nat, n: nat)
    requires |starts| == 2 && |starts[0]| == n && |starts[1]| == n && somLog == [{}, {}]
    ensures SomExact(somLog, starts, [], offset, 0, [], n)
  {
    EmitGap([], 0, if offset == 0 then 0 else offset - 1, n);
  }

  lemma {:induction false} EmitAtPrefix(evs: seq<SomReport>, t: nat, m: nat, n: nat)
    requires m <= n
    ensures EmitAt(evs, t, m) <= EmitAt(evs, t, n)
    decreases n
  {
    if m < n { EmitAtPrefix(evs, t, m, n - 1); }
  }

  /** A scan's calls: offsets never decrease and each end is the offset or one before it. */
  ghost predicate ScanCalls(calls: seq<Call>, hasSom: bool, n: nat) {
    && (forall i :: 0 <= i < |calls| ==>
          && calls[i].offset < U64_MAX
          && (calls[i].to == calls[i].offset || calls[i].to + 1 == calls[i].offset)
          && (calls[i].dkey.Some? ==> calls[i].dkey.value < n)
          && (hasSom || calls[i].dkey.Some?))
    && (forall i, j :: 0 <= i < j < |calls| ==> calls[i].offset <= calls[j].offset)
  }

  /** The final flush raises reports with ends up to the last offset, but for the very last 64-bit offset. */
  ghost function FlushedBelow(calls: seq<Call>): nat {
    if calls == [] then 0
    else
      var last := calls[|calls| - 1].offset;
      if last + 1 == U64_MAX then last else last + 1
  }

  /** Nothing is lost if and only if no report ends at the last offset, or that is not the very last one. */
  lemma AllRaisedIff(calls: seq<Call>, hasSom: bool, n: nat)
    requires ScanCalls(calls, hasSom, n) && calls != []
    ensures var last, evs := calls[|calls| - 1].offset, SomReportsOf(calls, hasSom);
            EmitBelow(evs, FlushedBelow(calls), n) == EmitBelow(evs, last + 1, n) <==>
            last + 1 < U64_MAX || forall d: nat :: d < n ==> !Recorded(evs, d, last)
  {
    hide EmitBelow, SomReportsOf, ScanCalls;
    var last, evs := calls[|calls| - 1].offset, SomReportsOf(calls, hasSom);
    ScanStart(calls, hasSom, n);
    if last + 1 == U64_MAX {
      if d: nat :| d < n && Recorded(evs, d, last) {
        var r := SomReport(d, Leftmost(evs, d, last), last);
        InEmitBelow(evs, last, n, r);
        InEmitBelow(evs, last + 1, n, r);
      } else {
        EmitGap(evs, last, last + 1, n);
      }
    }
  }

  /** One report that ends at offset 2^64 - 2. */
  const LATE := Call(U64_MAX - 1, 0, U64_MAX - 1, Some(0), false, false)

  /** A scan that makes this one report raises nothing. */
  lemma LateReportLost()
    ensures ScanCalls([LATE], true, 1) && SomReportsOf([LATE], true) == [SomReport(0, 0, U64_MAX - 1)]
    ensures EmitBelow(SomReportsOf([LATE], true), FlushedBelow([LATE]), 1) == []
  {
    hide EmitBelow;
    var calls, evs := [LATE], [SomReport(0, 0, U64_MAX - 1)];
    assert calls[..0] == [];
    assert SomReportsOf(calls, true) == SomReportsOf([], true) + evs;
    EmitGap(evs, 0, U64_MAX - 1, 1);
    assert EmitBelow(evs, 0, 1) == [] by { NothingBelow(evs); }
  }

  lemma NothingBelow(evs: seq<SomReport>)
    ensures EmitBelow(evs, 0, 1) == []
  {
  }

  /** No earlier call went through the logs with the same key and end. */
  ghost predicate First(calls: seq<Call>, i: nat)
    requires i < |calls|
  {
    forall j :: 0 <= j < i ==> !(calls[j].ChecksLog() && calls[j].dkey == calls[i].dkey && calls[j].to == calls[i].to)
  }

  ghost function KeysOf(calls: seq<Call>): set<Key> {
    set i | 0 <= i < |calls| && calls[i].ChecksLog() :: Key(calls[i].dkey.value, calls[i].to)
  }

  /** The start-of-match reports that the calls record. */
  ghost function SomReportsOf(calls: seq<Call>, hasSom: bool): seq<SomReport> {
    if calls == [] then []
    else
      var init, c := SomReportsOf(calls[..|calls| - 1], hasSom), calls[|calls| - 1];
      if c.KeepsStart(hasSom) then init + [SomReport(c.dkey.value, c.from, c.to)] else init
  }

  lemma KeysStep(calls: seq<Call>, i: nat)
    requires i < |calls|
    ensures KeysOf(calls[..i + 1]) ==
            if calls[i].ChecksLog() then KeysOf(calls[..i]) + {Key(calls[i].dkey.value, calls[i].to)} else KeysOf(calls[..i])
    ensures calls[i].ChecksLog() ==> (Key(calls[i].dkey.value, calls[i].to) !in KeysOf(calls[..i]) <==> First(calls, i))
  {
    var now, before := calls[..i + 1], calls[..i];
    assert now == before + [calls[i]];
    forall k | k in KeysOf(before) ensures k in KeysOf(now) {
      var j :| 0 <= j < i && before[j].ChecksLog() && k == Key(before[j].dkey.value, before[j].to);
      assert now[j] == before[j];
    }
    assert calls[i].ChecksLog() ==> Key(now[i].dkey.value, now[i].to) in KeysOf(now);
    if calls[i].ChecksLog() && !First(calls, i) {
      var j :| 0 <= j < i && calls[j].ChecksLog() && calls[j].dkey == calls[i].dkey && calls[j].to == calls[i].to;
      assert before[j] == calls[j];
    }
  }

  /** What a call is told: a report with a key is new or not, or kept for the flush; everything else goes on. */
  ghost predicate ToldRight(calls: seq<Call>, hasSom: bool, i: nat, r: DedupeResult)
    requires i < |calls|
  {
    var c := calls[i];
    if c.dkey.Some? && (c.external || c.quashSom) then r == if First(calls, i) then DedupeContinue else DedupeSkip
    else r == if c.dkey.Some? && hasSom then DedupeSkip else DedupeContinue
  }

  /** A whole scan, over logs that start with arbitrary stale bits. External reports go through exactly once
      per key and end; start-of-match reports come out exactly once per key and end, with the leftmost start, up to the
      first one that is answered by a request to stop. */
  method RunScan(m: MatchDeduper, calls: seq<Call>) returns (results: seq<DedupeResult>, halted: bool)
    requires m.Valid() && m.cur == U64_MAX
    requires ScanCalls(calls, m.hasSom, m.dkeyCount)
    modifies m
    ensures |results| <= |calls| && (!halted ==> |results| == |calls|)
    ensures forall i :: 0 <= i < |results| ==>
              ToldRight(calls, m.hasSom, i, results[i]) || (halted && i == |results| - 1 && results[i] == DedupeHalt)
    ensures var full := EmitBelow(SomReportsOf(calls, m.hasSom), FlushedBelow(calls), m.dkeyCount);
            if halted then m.out <= full && StopsAtLast(m.userHalts, m.out) else m.out == full && Quiet(m.userHalts, m.out)
  {
    hide EmitBelow, ScanCalls, KeysOf, SomReportsOf, Quiet, StopsAtLast;
    results := [];
    ScanStart(calls, m.hasSom, m.dkeyCount);
    for i := 0 to |calls|
      invariant m.Valid()
      invariant |results| == i
      invariant m.cur == if i == 0 then U64_MAX else calls[i - 1].offset
      invariant m.ext == KeysOf(calls[..i]) && m.evs == SomReportsOf(calls[..i], m.hasSom)
      invariant forall j :: 0 <= j < i ==> ToldRight(calls, m.hasSom, j, results[j])
    {
      KeysStep(calls, i);
      SomReportsStep(calls, i, m.hasSom);
      ScanStep(calls, i, m.hasSom, m.dkeyCount);
      ghost var cur := m.cur;
      var r := m.DedupeCatchup(calls[i]);
      results := results + [r];
      if r == DedupeHalt {
        StoppedEarly(calls, m.hasSom, m.dkeyCount, i, if calls[i].offset == cur + 1 then cur else cur + 1);
        return results, true;
      }
    }
    assert calls[..|calls|] == calls;
    halted := m.FinishScan();
    if calls == [] { EmitBelowNone(m.dkeyCount); }
  }

  /** What is raised before call i does not depend on the calls from there on. */
  lemma StoppedEarly(calls: seq<Call>, hasSom: bool, n: nat, i: nat, t: nat)
    requires ScanCalls(calls, hasSom, n) && i < |calls| && t < calls[i].offset
    ensures EmitBelow(SomReportsOf(calls[..i], hasSom), t, n)
         <= EmitBelow(SomReportsOf(calls, hasSom), FlushedBelow(calls), n)
  {
    hide EmitBelow, SomReportsOf;
    LaterReports(calls, hasSom, n, i, |calls|, t);
    assert calls[..|calls|] == calls;
    EmitBelowPrefix(SomReportsOf(calls, hasSom), t, FlushedBelow(calls), n);
  }

  lemma {:induction false} LaterReports(calls: seq<Call>, hasSom: bool, n: nat, i: nat, j: nat, t: nat)
    requires ScanCalls(calls, hasSom, n) && i <= j <= |calls| && i < |calls| && t < calls[i].offset
    ensures EmitBelow(SomReportsOf(calls[..j], hasSom), t, n) == EmitBelow(SomReportsOf(calls[..i], hasSom), t, n)
    decreases j
  {
    hide EmitBelow, SomReportsOf;
    if i < j {
      LaterReports(calls, hasSom, n, i, j - 1, t);
      SomReportsStep(calls, j - 1, hasSom);
      var c := calls[j - 1];
      if c.KeepsStart(hasSom) {
        EmitBelowStep(SomReportsOf(calls[..j - 1], hasSom), SomReport(c.dkey.value, c.from, c.to), t, n);
      }
    }
  }

  lemma ScanStart(calls: seq<Call>, hasSom: bool, n: nat)
    requires ScanCalls(calls, hasSom, n)
    ensures KeysOf(calls[..0]) == {} && SomReportsOf(calls[..0], hasSom) == []
    ensures forall i :: 0 <= i < |calls| ==> calls[i].offset < U64_MAX
  {
  }

  lemma ScanStep(calls: seq<Call>, i: nat, hasSom: bool, n: nat)
    requires ScanCalls(calls, hasSom, n) && i < |calls|
    ensures var c := calls[i];
            && c.offset < U64_MAX && (i > 0 ==> calls[i - 1].offset <= c.offset)
            && (c.to == c.offset || c.to + 1 == c.offset)
            && (c.dkey.Some? ==> c.dkey.value < n) && (hasSom || c.dkey.Some?)
  {
  }

  lemma SomReportsStep(calls: seq<Call>, i: nat, hasSom: bool)
    requires i < |calls|
    ensures var c := calls[i];
            SomReportsOf(calls[..i + 1], hasSom) ==
            if c.KeepsStart(hasSom)
            then SomReportsOf(calls[..i], hasSom) + [SomReport(c.dkey.value, c.from, c.to)]
            else SomReportsOf(calls[..i], hasSom)
  {
    assert calls[..i + 1][..i] == calls[..i];
  }
}
