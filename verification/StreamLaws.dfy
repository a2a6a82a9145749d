/** What streaming is for: engines see the end of what was written, so a match across writes is found like any other. */
module StreamLaws {
  import opened Common
  import opened StreamSpec
  import opened StreamRuntime
  import opened StreamSessions

  /** Scans and end-of-data reports show the engines the end of all data written, its length, and the new data. */
  lemma ShownToEngines(r: Rose, s: Stream, writes: seq<seq<Byte>>, data: seq<Byte>)
    requires Remembers(r, s, writes)
    ensures var all := Concat(writes);
            CoreOf(s, data) == Core(s.engine, all[|all| - Min(r.historyRequired, |all|)..], data, |all|, s.status)
  {
    hide Concat;
  }

  // A literal ---------------------------------------------------------------------------------------------------

  predicate EndsAt(lit: seq<Byte>, text: seq<Byte>, e: nat) {
    |lit| <= e <= |text| && text[e - |lit|..e] == lit
  }

  /** One report per end of the literal behind `lo` and up to `hi`; the text begins at offset `base`. */
  function Hits(lit: seq<Byte>, text: seq<Byte>, lo: nat, hi: nat, base: nat): seq<Event>
    decreases hi
  {
    if hi <= lo then []
    else Hits(lit, text, lo, hi - 1, base) +
         if EndsAt(lit, text, hi) then [Event(0, base + hi - |lit|, base + hi)] else []
  }

  /** An engine that finds a literal in the history and the new data. */
  function Finder(lit: seq<Byte>): Hook {
    (c: Core, t: seq<Event>, h: Handler) =>
      Outcome(c.engine, c.status,
              t + Hits(lit, c.history + c.data, |c.history|, |c.history| + |c.data|,
                       if |c.history| <= c.offset then c.offset - |c.history| else 0), false)
  }

  function FinderRose(lit: seq<Byte>, n: nat): Rose {
    Rose(n, [], None, Finder(lit), None, None, None, None, None)
  }

  /** A usable stream over everything written so far. */
  ghost predicate Follows(n: nat, s: Stream, w: seq<Byte>) {
    !s.status.Broken() && |s.history| == n && s.offset == |w| && Live(s) == Last(w, Min(n, |w|))
  }

  lemma {:induction false} HitsInTail(lit: seq<Byte>, w: seq<Byte>, k: nat, data: seq<Byte>, m: nat)
    requires k <= |w| && m <= |data| && (|lit| <= k + 1 || k == |w|)
    ensures Hits(lit, Last(w, k) + data, k, k + m, |w| - k) == Hits(lit, w + data, |w|, |w| + m, 0)
    decreases m
  {
    hide EndsAt, Last;
    if m > 0 {
      HitsInTail(lit, w, k, data, m - 1);
      EndsAlike(lit, w, k, data, m);
    }
  }

  lemma EndsAlike(lit: seq<Byte>, w: seq<Byte>, k: nat, data: seq<Byte>, m: nat)
    requires k <= |w| && 0 < m <= |data| && (|lit| <= k + 1 || k == |w|)
    ensures EndsAt(lit, Last(w, k) + data, k + m) <==> EndsAt(lit, w + data, |w| + m)
  {
    var text, tail, d := w + data, Last(w, k) + data, |w| - k;
    DropJoin(w, data, d);
    if |lit| <= k + m {
      DropSlice(text, d, k + m - |lit|, k + m);
    }
  }

  lemma DropJoin(w: seq<Byte>, data: seq<Byte>, d: nat)
    requires d <= |w|
    ensures w[d..] + data == (w + data)[d..]
  {
  }

  lemma DropSlice(text: seq<Byte>, d: nat, i: nat, j: nat)
    requires i <= j && d + j <= |text|
    ensures text[d..][i..j] == text[d + i..d + j]
  {
  }

  lemma {:induction false} HitsBefore(lit: seq<Byte>, w: seq<Byte>, data: seq<Byte>, lo: nat, hi: nat)
    requires hi <= |w|
    ensures Hits(lit, w + data, lo, hi, 0) == Hits(lit, w, lo, hi, 0)
    decreases hi
  {
    if hi > lo {
      HitsBefore(lit, w, data, lo, hi - 1);
      if |lit| <= hi {
        assert (w + data)[hi - |lit|..hi] == w[hi - |lit|..hi];
      }
    }
  }

  lemma {:induction false} HitsSplit(lit: seq<Byte>, text: seq<Byte>, lo: nat, mid: nat, hi: nat)
    requires lo <= mid <= hi
    ensures Hits(lit, text, lo, hi, 0) == Hits(lit, text, lo, mid, 0) + Hits(lit, text, mid, hi, 0)
    decreases hi
  {
    if hi > mid {
      HitsSplit(lit, text, lo, mid, hi - 1);
    }
  }

  /** One write. */
  lemma FinderScan(lit: seq<Byte>, n: nat, s: Stream, w: seq<Byte>, data: seq<Byte>, h: Handler, t: seq<Event>, left: Status)
    requires |lit| <= n + 1 && Follows(n, s, w)
    ensures var f := Scan(FinderRose(lit, n), s, data, h, t, left);
            Follows(n, f.stream, w + data) && f.trace == t + Hits(lit, w + data, |w|, |w| + |data|, 0)
  {
    hide Hits, Slide, LiveAt;
    if data == [] {
      assert w + data == w;
      NoHits(lit, w, |w|);
    } else {
      HitsInTail(lit, w, Min(n, |w|), data, |data|);
      SlideKeepsTail(w, s.history, s.offset, data);
      LastLength(w, Min(n, |w|));
    }
  }

  lemma LastLength(w: seq<Byte>, k: nat)
    requires k <= |w|
    ensures |Last(w, k)| == k
  {
  }

  lemma NoHits(lit: seq<Byte>, text: seq<Byte>, at: nat)
    ensures Hits(lit, text, at, at, 0) == []
  {
  }

  lemma {:induction false} ConcatFront(blocks: seq<seq<Byte>>)
    requires blocks != []
    ensures Concat(blocks) == blocks[0] + Concat(blocks[1..])
    decreases |blocks|
  {
    var n := |blocks| - 1;
    if n == 0 {
      assert blocks[..0] == [] && blocks[1..] == [];
    } else {
      ConcatFront(blocks[..n]);
      assert blocks[..n][1..] == blocks[1..][..n - 1];
    }
  }

  lemma {:induction false} FinderRun(lit: seq<Byte>, n: nat, s: Stream, w: seq<Byte>, blocks: seq<seq<Byte>>, h: Handler,
                                     t: seq<Event>, left: Status)
    requires |lit| <= n + 1 && Follows(n, s, w)
    ensures var all := w + Concat(blocks);
            ScanAll(FinderRose(lit, n), s, blocks, h, t, left).trace == t + Hits(lit, all, |w|, |all|, 0)
    decreases |blocks|
  {
    hide Hits, Follows, Scan;
    if blocks == [] {
      assert w + Concat(blocks) == w;
      NoHits(lit, w, |w|);
    } else {
      var f := Scan(FinderRose(lit, n), s, blocks[0], h, t, left);
      var w', rest := w + blocks[0], Concat(blocks[1..]);
      FinderScan(lit, n, s, w, blocks[0], h, t, left);
      FinderRun(lit, n, f.stream, w', blocks[1..], h, f.trace, f.left);
      ConcatFront(blocks);
      var all := w + Concat(blocks);
      assert all == w' + rest;
      HitsSplit(lit, all, |w|, |w'|, |all|);
      HitsInWhole(lit, w', rest, |w|);
    }
  }

  lemma HitsInWhole(lit: seq<Byte>, w: seq<Byte>, rest: seq<Byte>, lo: nat)
    requires lo <= |w|
    ensures Hits(lit, w + rest, lo, |w|, 0) == Hits(lit, w, lo, |w|, 0)
  {
    HitsBefore(lit, w, rest, lo, |w|);
  }

  /** However the data is cut into writes, a literal is found exactly where it ends in the whole, given enough history. */
  lemma StreamFindsWhole(lit: seq<Byte>, n: nat, history: seq<Byte>, blocks: seq<seq<Byte>>, h: Handler, left: Status)
    requires |lit| <= n + 1 && |history| == n
    ensures var r := FinderRose(lit, n);
            ScanAll(r, Opened(r, history), blocks, h, [], left).trace
            == Hits(lit, Concat(blocks), 0, |Concat(blocks)|, 0)
  {
    hide Hits, Concat, ScanAll, Follows, FinderRose;
    var r := FinderRose(lit, n);
    OpenedFollows(r, n, history);
    FinderRun(lit, n, Opened(r, history), [], blocks, h, [], left);
    assert [] + Concat(blocks) == Concat(blocks);
  }

  lemma OpenedFollows(r: Rose, n: nat, history: seq<Byte>)
    requires |history| == n
    ensures Follows(n, Opened(r, history), [])
  {
  }

  /** With less history a literal cut before its last byte is missed. */
  lemma ShortHistoryMisses(lit: seq<Byte>, n: nat, history: seq<Byte>, h: Handler, left: Status)
    requires |lit| > n + 1 && |history| == n
    ensures var r, k := FinderRose(lit, n), |lit| - 1;
            && ScanAll(r, Opened(r, history), [lit[..k], lit[k..]], h, [], left).trace == []
            && Event(0, 0, |lit|) in Hits(lit, Concat([lit[..k], lit[k..]]), 0, |lit|, 0)
  {
    hide Hits, Concat, ScanAll, Scan, LiveAt, FinderRose, Slide;
    var r, k := FinderRose(lit, n), |lit| - 1;
    var a, b := lit[..k], lit[k..];
    TwoBlocks(a, b);
    assert a + b == lit;
    WholeHit(lit);
    var s := Opened(r, history);
    LiveLength(s);
    FinderMisses(lit, n, s, a, h, [], left);
    var f := Scan(r, s, a, h, [], left);
    SlideLength(history, a);
    LiveLength(f.stream);
    FinderMisses(lit, n, f.stream, b, h, [], f.left);
    ScanTwo(r, s, a, b, h, left);
  }

  lemma SlideLength(history: seq<Byte>, data: seq<Byte>)
    ensures |Slide(history, data)| == |history|
  {
  }

  lemma LiveLength(s: Stream)
    ensures |Live(s)| == Min(|s.history|, s.offset)
  {
  }

  lemma WholeHit(lit: seq<Byte>)
    requires lit != []
    ensures Event(0, 0, |lit|) in Hits(lit, lit, 0, |lit|, 0)
  {
    assert lit[0..|lit|] == lit;
  }

  /** History and data together are shorter than the literal. */
  lemma FinderMisses(lit: seq<Byte>, n: nat, s: Stream, data: seq<Byte>, h: Handler, t: seq<Event>, left: Status)
    requires !s.status.Broken() && data != [] && |Live(s)| + |data| < |lit|
    ensures var f := Scan(FinderRose(lit, n), s, data, h, t, left);
            && f.trace == t && !f.stream.status.Broken()
            && f.stream.history == Slide(s.history, data) && f.stream.offset == s.offset + |data|
  {
    hide Hits, Slide, LiveAt;
    var live := Live(s);
    TooShort(lit, live + data, |live|, |live| + |data|, if |live| <= s.offset then s.offset - |live| else 0);
  }

  lemma ScanTwo(r: Rose, s: Stream, a: seq<Byte>, b: seq<Byte>, h: Handler, left: Status)
    ensures var f := Scan(r, s, a, h, [], left);
            ScanAll(r, s, [a, b], h, [], left).trace == Scan(r, f.stream, b, h, f.trace, f.left).trace
  {
    hide Scan;
    var f := Scan(r, s, a, h, [], left);
    var g := Scan(r, f.stream, b, h, f.trace, f.left);
    assert [a, b][1..] == [b] && [b][1..] == [];
    assert ScanAll(r, g.stream, [], h, g.trace, g.left).trace == g.trace;
  }

  lemma TwoBlocks(a: seq<Byte>, b: seq<Byte>)
    ensures Concat([a, b]) == a + b
  {
    assert [a, b][..1] == [a] && [a][..0] == [];
    assert Concat([a]) == Concat([]) + a == a;
  }

  lemma {:induction false} TooShort(lit: seq<Byte>, text: seq<Byte>, lo: nat, hi: nat, base: nat)
    requires hi < |lit|
    ensures Hits(lit, text, lo, hi, base) == []
    decreases hi
  {
    if hi > lo {
      TooShort(lit, text, lo, hi - 1, base);
    }
  }

  // The order of the hooks --------------------------------------------------------------------------------------

  /** Engine state after a hook has put down what it was shown. */
  function Noted(engine: Engine, shown: seq<Byte>, id: Byte): Engine { engine + shown + [id] }

  /** Callbacks after a hook has made one. */
  function Told(t: seq<Event>, id: Byte, from: nat, upto: nat): seq<Event> { t + [Event(id, from, upto)] }

  /** A hook that notes what it was shown, in the engine state and by a callback. */
  function Note(id: Byte): Hook {
    (c: Core, t: seq<Event>, h: Handler) =>
      Outcome(Noted(c.engine, c.history + c.data, id), c.status, Told(t, id, c.offset, c.offset + |c.data|), false)
  }

  function NoteRose(n: nat): Rose {
    Rose(n, [], Some(Note(0)), Note(1), Some(Note(2)), Some(Note(3)), Some(Note(4)), Some(Note(5)), Some(Note(6)))
  }

  lemma NoteRun(id: Byte, c: Core, t: seq<Event>, h: Handler)
    requires !c.status.terminated
    ensures var o := Outcome(Noted(c.engine, c.history + c.data, id), c.status,
                             Told(t, id, c.offset, c.offset + |c.data|), false);
            Note(id)(c, t, h) == o && Run(Some(Note(id)), c, t, h) == o && Flushed(Some(Note(id)), c, t, h) == o
  {
    hide Noted, Told;
  }

  /** What the engines are shown of a stream with these writes, followed by the new data. */
  function Shown(n: nat, writes: seq<seq<Byte>>, data: seq<Byte>): seq<Byte> {
    var all := Concat(writes);
    all[|all| - Min(n, |all|)..] + data
  }

  lemma CoreShown(n: nat, s: Stream, writes: seq<seq<Byte>>, data: seq<Byte>)
    requires Remembers(NoteRose(n), s, writes)
    ensures var c := CoreOf(s, data);
            && c.history + c.data == Shown(n, writes, data) && c.offset == s.offset == |Concat(writes)| && c.data == data
            && c.engine == s.engine && c.status == s.status
  {
    hide Concat, LiveAt, CoreOf;
    ShownToEngines(NoteRose(n), s, writes, data);
  }

  /** A write runs the boundary program if it is the first, then the engine, then the flush; an empty one nothing. Each
      is shown the end of what was written and the new data, and goes on from the engine state the one before left. */
  lemma ScanOrder(n: nat, s: Stream, writes: seq<seq<Byte>>, data: seq<Byte>, h: Handler, t: seq<Event>, left: Status)
    requires Remembers(NoteRose(n), s, writes) && !s.status.Broken()
    ensures data == [] ==> Scan(NoteRose(n), s, data, h, t, left) == Step(s, t, left, Success)
    ensures data != [] ==>
            var shown, a := Shown(n, writes, data), |Concat(writes)|;
            var z := a + |data|;
            var f := Scan(NoteRose(n), s, data, h, t, left);
            && f.trace == Told(Told(if a == 0 then Told(t, 0, a, z) else t, 1, a, z), 2, a, z)
            && f.stream.engine == Noted(Noted(if a == 0 then Noted(s.engine, shown, 0) else s.engine, shown, 1), shown, 2)
  {
    hide Noted, Told, Note, Shown, CoreOf, Remembers, Concat, Slide, Run, Flushed;
    CoreShown(n, s, writes, data);
    var c := CoreOf(s, data);
    NoteRun(0, c, t, h);
    var z := Run(if s.offset == 0 then Some(Note(0)) else None, c, t, h);
    NoneRun(c, t, h);
    var c1 := StreamSpec.After(c, z);
    NoteRun(1, c1, z.trace, h);
    var e := Note(1)(c1, z.trace, h);
    NoteRun(2, StreamSpec.After(c1, e), e.trace, h);
  }

  lemma NoneRun(c: Core, t: seq<Event>, h: Handler)
    ensures Run(None, c, t, h) == Outcome(c.engine, c.status, t, false)
  {
  }

  /** End of data runs one boundary program, the end-of-data engine unless there was no data, and both flushes. */
  lemma EodOrder(n: nat, s: Stream, writes: seq<seq<Byte>>, h: Handler, t: seq<Event>, left: Status)
    requires Remembers(NoteRose(n), s, writes) && !s.status.Broken()
    ensures var shown, a := Shown(n, writes, []), |Concat(writes)|;
            var f := Eod(NoteRose(n), s, h, t, left);
            && f.trace == Told(Told(if a == 0 then Told(t, 3, a, a) else Told(Told(t, 4, a, a), 5, a, a), 2, a, a), 6, a, a)
            && f.engine == Noted(Noted(if a == 0 then Noted(s.engine, shown, 3)
                                       else Noted(Noted(s.engine, shown, 4), shown, 5), shown, 2), shown, 6)
  {
    hide Noted, Told, Note, Shown, CoreOf, Remembers, Concat, Run, Flushed;
    CoreShown(n, s, writes, []);
    var c := CoreOf(s, []);
    NoteRun(3, c, t, h);
    NoteRun(4, c, t, h);
    var b := Run(Some(Note(4)), c, t, h);
    NoteRun(5, StreamSpec.After(c, b), b.trace, h);
    var m := EodMatched(NoteRose(n), c, t, h);
    NoteRun(2, StreamSpec.After(c, m), m.trace, h);
    var f := Flushed(Some(Note(2)), StreamSpec.After(c, m), m.trace, h);
    NoteRun(6, StreamSpec.After(c, f), f.trace, h);
  }
}
