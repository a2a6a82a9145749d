/** What deduplication of a scan's reports means: first occurrences, and leftmost starts per end. */
module DedupeSpec {

  /** A start-of-match report: key, start and end. */
  datatype SomReport = SomReport(dkey: nat, start: nat, end: nat)

  /** Key d has been recorded with end t. */
  ghost predicate Recorded(evs: seq<SomReport>, d: nat, t: nat) {
    exists i :: 0 <= i < |evs| && evs[i].dkey == d && evs[i].end == t
  }

  /** The least start recorded for key d with end t. */
  ghost function Leftmost(evs: seq<SomReport>, d: nat, t: nat): (s: nat)
    requires Recorded(evs, d, t)
    ensures exists i :: 0 <= i < |evs| && evs[i] == SomReport(d, s, t)
    ensures forall i :: 0 <= i < |evs| && evs[i].dkey == d && evs[i].end == t ==> s <= evs[i].start
  {
    var n := |evs| - 1;
    var init, e := evs[..n], evs[n];
    assert evs == init + [e];
    assert forall i :: 0 <= i < n ==> init[i] == evs[i];
    if e.dkey == d && e.end == t then
      assert evs[n] == SomReport(d, e.start, t);
      if Recorded(init, d, t) then
        var s := Leftmost(init, d, t);
        if s < e.start then s else e.start
      else e.start
    else
      assert Recorded(init, d, t) by {
        var i :| 0 <= i < |evs| && evs[i].dkey == d && evs[i].end == t;
        assert init[i] == evs[i];
      }
      Leftmost(init, d, t)
  }

  /** One report per key below n recorded with end t, keys ascending. */
  ghost function EmitAt(evs: seq<SomReport>, t: nat, n: nat): seq<SomReport> {
    if n == 0 then []
    else if Recorded(evs, n - 1, t) then EmitAt(evs, t, n - 1) + [SomReport(n - 1, Leftmost(evs, n - 1, t), t)]
    else EmitAt(evs, t, n - 1)
  }

  /** All reports with ends below t, ends ascending. */
  ghost function EmitBelow(evs: seq<SomReport>, t: nat, n: nat): seq<SomReport> {
    if t == 0 then [] else EmitBelow(evs, t - 1, n) + EmitAt(evs, t - 1, n)
  }

  lemma RecordedStep(evs: seq<SomReport>, e: SomReport, d: nat, t: nat)
    ensures Recorded(evs + [e], d, t) <==> Recorded(evs, d, t) || (e.dkey == d && e.end == t)
  {
    if Recorded(evs, d, t) {
      var i :| 0 <= i < |evs| && evs[i].dkey == d && evs[i].end == t;
      assert (evs + [e])[i] == evs[i];
    }
    assert (evs + [e])[|evs|] == e;
  }

  lemma LeftmostStep(evs: seq<SomReport>, e: SomReport, d: nat, t: nat)
    requires Recorded(evs + [e], d, t)
    ensures Leftmost(evs + [e], d, t) ==
            if e.dkey == d && e.end == t
            then (if Recorded(evs, d, t) && Leftmost(evs, d, t) < e.start then Leftmost(evs, d, t) else e.start)
            else (RecordedStep(evs, e, d, t); Leftmost(evs, d, t))
  {
    assert (evs + [e])[..|evs|] == evs;
  }

  /** Recording a report with end e.end leaves the emission at other ends alone. */
  lemma {:induction false} EmitAtStep(evs: seq<SomReport>, e: SomReport, t: nat, n: nat)
    requires e.end != t
    ensures EmitAt(evs + [e], t, n) == EmitAt(evs, t, n)
  {
    if n > 0 {
      EmitAtStep(evs, e, t, n - 1);
      RecordedStep(evs, e, n - 1, t);
      if Recorded(evs, n - 1, t) { LeftmostStep(evs, e, n - 1, t); }
    }
  }

  lemma {:induction false} EmitBelowStep(evs: seq<SomReport>, e: SomReport, t: nat, n: nat)
    requires t <= e.end
    ensures EmitBelow(evs + [e], t, n) == EmitBelow(evs, t, n)
  {
    if t > 0 {
      EmitBelowStep(evs, e, t - 1, n);
      EmitAtStep(evs, e, t - 1, n);
    }
  }

  lemma {:induction false} EmitNothing(evs: seq<SomReport>, t: nat, n: nat)
    requires forall d: nat :: d < n ==> !Recorded(evs, d, t)
    ensures EmitAt(evs, t, n) == []
  {
    if n > 0 { EmitNothing(evs, t, n - 1); }
  }

  lemma {:induction false} EmitGap(evs: seq<SomReport>, a: nat, b: nat, n: nat)
    requires a <= b
    requires forall d: nat, t: nat :: d < n && a <= t < b ==> !Recorded(evs, d, t)
    ensures EmitBelow(evs, a, n) == EmitBelow(evs, b, n)
    decreases b
  {
    if a < b {
      EmitGap(evs, a, b - 1, n);
      EmitNothing(evs, b - 1, n);
    }
  }

  lemma {:induction false} InEmitAt(evs: seq<SomReport>, t: nat, n: nat, r: SomReport)
    ensures r in EmitAt(evs, t, n) <==>
            r.end == t && r.dkey < n && Recorded(evs, r.dkey, t) && r.start == Leftmost(evs, r.dkey, t)
  {
    if n > 0 { InEmitAt(evs, t, n - 1, r); }
  }

  /** What is emitted: for every recorded key and end, the leftmost start; and nothing else. */
  lemma {:induction false} InEmitBelow(evs: seq<SomReport>, t: nat, n: nat, r: SomReport)
    ensures r in EmitBelow(evs, t, n) <==>
            r.end < t && r.dkey < n && Recorded(evs, r.dkey, r.end) && r.start == Leftmost(evs, r.dkey, r.end)
  {
    if t > 0 {
      InEmitBelow(evs, t - 1, n, r);
      InEmitAt(evs, t - 1, n, r);
    }
  }

  ghost predicate EarlierThan(a: SomReport, b: SomReport) {
    a.end < b.end || (a.end == b.end && a.dkey < b.dkey)
  }

  ghost predicate Ordered(rs: seq<SomReport>) {
    forall i, j :: 0 <= i < j < |rs| ==> EarlierThan(rs[i], rs[j])
  }

  lemma {:induction false} EmitAtOrdered(evs: seq<SomReport>, t: nat, n: nat)
    ensures Ordered(EmitAt(evs, t, n))
  {
    if n > 0 {
      EmitAtOrdered(evs, t, n - 1);
      forall r | r in EmitAt(evs, t, n - 1) ensures r.end == t && r.dkey < n - 1 {
        InEmitAt(evs, t, n - 1, r);
      }
    }
  }

  /** Reports come out in order of their ends, and never twice for the same key and end. */
  lemma {:induction false} EmitBelowOrdered(evs: seq<SomReport>, t: nat, n: nat)
    ensures Ordered(EmitBelow(evs, t, n))
  {
    if t > 0 {
      EmitBelowOrdered(evs, t - 1, n);
      EmitAtOrdered(evs, t - 1, n);
      forall r | r in EmitBelow(evs, t - 1, n) ensures r.end < t - 1 { InEmitBelow(evs, t - 1, n, r); }
      forall r | r in EmitAt(evs, t - 1, n) ensures r.end == t - 1 { InEmitAt(evs, t - 1, n, r); }
    }
  }
}
