/** Keeping the leftmost match per end offset. */
module MatchFilter {
  import opened Ranges

  datatype Match = Match(som: nat, eom: nat)

  /** The largest 32-bit value, from which the search for a minimum starts. */
  const CAP: nat := 0xFFFF_FFFF

  ghost predicate IsLeftmost(ms: set<Match>, m: Match) {
    m in ms && forall x :: x in ms && x.eom == m.eom ==> m.som <= x.som
  }

  /** The leftmost match of every end. */
  ghost function Leftmost(ms: set<Match>): set<Match> {
    set m | m in ms && IsLeftmost(ms, m)
  }

  /** What the filter keeps. */
  ghost function Filtered(ms: set<Match>): set<Match> {
    set m | m in ms && IsLeftmost(ms, m) && m.som <= CAP
  }

  method LeastSom(ms: set<Match>, eom: nat) returns (least: nat)
    ensures least <= CAP && forall m :: m in ms && m.eom == eom ==> least <= m.som
    ensures least == CAP || exists m :: m in ms && m == Match(least, eom)
  {
    least := CAP;
    var todo := ms;
    while todo != {}
      invariant todo <= ms && least <= CAP
      invariant forall m :: m in ms - todo && m.eom == eom ==> least <= m.som
      invariant least == CAP || exists m :: m in ms && m == Match(least, eom)
      decreases todo
    {
      var m := AnyOf(todo);
      todo := todo - {m};
      if m.eom == eom && m.som < least {
        least := m.som;
        assert m == Match(least, eom);
      }
    }
  }

  method EraseAbove(ms: set<Match>, eom: nat, least: nat) returns (kept: set<Match>)
    ensures kept == set m | m in ms && !(m.eom == eom && m.som > least)
  {
    kept := ms;
    var todo := ms;
    while todo != {}
      invariant todo <= ms
      invariant kept == set m | m in ms && (m in todo || !(m.eom == eom && m.som > least))
      decreases todo
    {
      var m := AnyOf(todo);
      todo := todo - {m};
      if m.eom == eom && m.som > least {
        kept := kept - {m};
      }
    }
  }

  method FilterMatches(matches: set<Match>) returns (kept: set<Match>)
    ensures kept == Filtered(matches)
  {
    var eoms := set m | m in matches :: m.eom;
    kept := matches;
    while eoms != {}
      invariant forall m :: m in matches && m.eom in eoms ==> m in kept
      invariant forall m :: m in kept ==> m in matches
      invariant forall m :: m in matches && m.eom !in eoms ==> (m in kept <==> IsLeftmost(matches, m) && m.som <= CAP)
      decreases eoms
    {
      var eom := AnyOf(eoms);
      var least := LeastSom(kept, eom);
      ghost var before := kept;
      kept := EraseAbove(kept, eom, least);
      forall m | m in matches && m.eom == eom ensures m in kept <==> IsLeftmost(matches, m) && m.som <= CAP {
        assert m in before;
        if m.som <= least {
          forall x | x in matches && x.eom == m.eom ensures m.som <= x.som { assert x in before; }
        }
      }
      eoms := eoms - {eom};
    }
  }

  /** The filter keeps the leftmost match of every end if and only if every end has a match that starts
      within the first 2^32 bytes. */
  lemma FilterExactIff(ms: set<Match>)
    ensures Filtered(ms) == Leftmost(ms) <==>
            forall m :: m in ms ==> exists x :: x in ms && x.eom == m.eom && x.som <= 0xFFFF_FFFF
  {
    if Filtered(ms) == Leftmost(ms) {
      forall m | m in ms ensures exists x :: x in ms && x.eom == m.eom && x.som <= CAP {
        var x := LeftmostExists(ms, m);
        assert x in Leftmost(ms);
        assert x in Filtered(ms);
      }
    }
  }

  lemma {:induction false} LeftmostExists(ms: set<Match>, m: Match) returns (x: Match)
    requires m in ms
    ensures IsLeftmost(ms, x) && x.eom == m.eom
    decreases m.som
  {
    if IsLeftmost(ms, m) {
      x := m;
    } else {
      var y :| y in ms && y.eom == m.eom && y.som < m.som;
      x := LeftmostExists(ms, y);
    }
  }

  /** A lone match that starts past the first 2^32 bytes is dropped. */
  lemma LateStartIsLost()
    ensures var ms := {Match(0x1_0000_0000, 0x1_0000_0001)};
            Leftmost(ms) == ms && Filtered(ms) == {}
  {
    var ms := {Match(0x1_0000_0000, 0x1_0000_0001)};
    assert forall m :: m in ms ==> IsLeftmost(ms, m);
  }
}
