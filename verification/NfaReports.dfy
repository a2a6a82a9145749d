/** Which reports the runs of the matcher raise, and which ones a graph promises. */
module NfaReports {
  import opened Common
  import opened NfaGraph
  import opened NfaWalks
  import opened StateSets
  import opened NfaStep
  import opened NfaAlign
  import opened NfaSpelling
  import opened MatchFilter

  const U64: nat := 0x1_0000_0000_0000_0000

  /** Report ids with their offset adjustments, and how to scan. */
  datatype Config = Config(adjust: map<nat, int>, notEod: bool, utf8: bool)
  {
    /** The reported end, in 64-bit arithmetic. */
    function End(offset: nat, r: nat): nat {
      (offset + if r in adjust then adjust[r] else 0) % U64
    }
  }

  /** A report ends at the offset plus its adjustment, and wraps around only where 64 bits do. */
  lemma EndIs(cfg: Config, offset: nat, r: nat)
    ensures r !in cfg.adjust && offset <= 0xFFFF_FFFF_FFFF_FFFF ==> cfg.End(offset, r) == offset
    ensures r in cfg.adjust ==>
              exists wraps: int :: cfg.End(offset, r) == offset + cfg.adjust[r] + wraps * 0x1_0000_0000_0000_0000
    ensures cfg.End(offset, r) <= 0xFFFF_FFFF_FFFF_FFFF
  {
    if r in cfg.adjust {
      var end := offset + cfg.adjust[r];
      assert cfg.End(offset, r) == end + (-(end / U64)) * 0x1_0000_0000_0000_0000;
    }
  }

  /** Node k is accepting between the bytes prev and cur. */
  predicate Accepting(g: Graph, f: Fuzz, cfg: Config, prev: Byte, cur: Byte, accept: Vertex, k: Node)
    requires k.level <= f.dist
  {
    && k.idx in AcceptStates(g, f, k.level, accept)
    && !(cfg.utf8 && k.idx == g.startDs && !IsUtf8CodePoint(cur))
    && (Edge(k.idx, accept) in g.edges ==> CanReach(g.edges[Edge(k.idx, accept)], prev, cur))
  }

  /** Node k raises report r at the given accept vertex. */
  predicate Raises(g: Graph, f: Fuzz, cfg: Config, prev: Byte, cur: Byte, accept: Vertex, k: Node, r: nat)
    requires k.level <= f.dist
  {
    Accepting(g, f, cfg, prev, cur, accept, k) && r in ReportsByLevel(g, f, k.level, k.idx, accept)
  }

  /** This accept vertex counts at offset n. */
  predicate AcceptsAt(g: Graph, cfg: Config, input: seq<Byte>, n: nat, accept: Vertex) {
    accept == g.accept || (accept == g.acceptEod && n == |input| && !cfg.notEod)
  }

  /** Node k raises report r at offset n. */
  ghost predicate NodeRaises(g: Graph, f: Fuzz, cfg: Config, input: seq<Byte>, n: nat, k: Node, accept: Vertex, r: nat) {
    && n <= |input| && AcceptsAt(g, cfg, input, n, accept) && k.level <= f.dist
    && Raises(g, f, cfg, Prev(input, n), Cur(input, n), accept, k, r)
  }

  /** A match of some run: the start it carries, and the end of a report that its last node raises. */
  ghost predicate RunMatch(g: Graph, f: Fuzz, cfg: Config, input: seq<Byte>, m: Match) {
    exists n: nat, k, accept, r: nat ::
      NodeRaises(g, f, cfg, input, n, k, accept, r) && Carried(g, f, input, n, k, m.som) && m.eom == cfg.End(n, r)
  }

  /** The leftmost match of all runs for its end. */
  ghost predicate LeftmostRun(g: Graph, f: Fuzz, cfg: Config, input: seq<Byte>, m: Match) {
    && RunMatch(g, f, cfg, input, m)
    && forall som: nat :: RunMatch(g, f, cfg, input, Match(som, m.eom)) ==> m.som <= som
  }

  /** The script leads to u, which reports r at an accept vertex after n bytes. */
  ghost predicate SpelledAt(g: Graph, f: Fuzz, loops: bool, cfg: Config, input: seq<Byte>, m: Match, s: nat, ops: seq<Op>,
                            n: nat, u: Vertex, accept: Vertex, r: nat)
  {
    && n <= |input| && AcceptsAt(g, cfg, input, n, accept) && g.HasEdge(u, accept) && r in g.ReportsOf(u)
    && Spells(g, f, loops, input, s, ops, n, u) && Cost(ops) <= f.dist && m == Match(Start(g, s, ops), cfg.End(n, r))
  }

  /** A match that is promised: some bytes can be edited, within the distance, into a path to a report. */
  ghost predicate SpellingMatch(g: Graph, f: Fuzz, loops: bool, cfg: Config, input: seq<Byte>, m: Match) {
    exists s: nat, ops, n: nat, u, accept, r: nat :: SpelledAt(g, f, loops, cfg, input, m, s, ops, n, u, accept, r)
  }

  /** The leftmost of them for its end. */
  ghost predicate LeftmostSpelling(g: Graph, f: Fuzz, loops: bool, cfg: Config, input: seq<Byte>, m: Match) {
    && SpellingMatch(g, f, loops, cfg, input, m)
    && forall som: nat :: SpellingMatch(g, f, loops, cfg, input, Match(som, m.eom)) ==> m.som <= som
  }

  lemma {:induction false} PredecessorBehind(g: Graph, u: Vertex, d: nat, x: Vertex, v: Vertex)
    requires u in PredecessorsByDepth(g, x, d) && g.HasEdge(x, v) && x != v
    ensures u in PredecessorsByDepth(g, v, d + 1)
    decreases d
  {
    assert Edge(x, v).u == x && Edge(x, v).v == v;
    assert x in PredecessorsByDepth(g, v, 0);
    if d > 0 {
      var e :| e in g.edges && e.v in PredecessorsByDepth(g, x, d - 1) && e.u != e.v && e.u == u;
      PredecessorBehind(g, e.v, d - 1, x, v);
    }
  }

  /** Successors and predecessors are counted alike. */
  lemma {:induction false} SuccessorHasPredecessor(g: Graph, u: Vertex, d: nat, v: Vertex)
    requires v in SuccessorsByDepth(g, u, d)
    ensures u in PredecessorsByDepth(g, v, d) && exists e :: e in g.edges && e.u == u
    decreases d
  {
    if d > 0 {
      var e :| e in g.edges && e.u in SuccessorsByDepth(g, u, d - 1) && e.v != e.u && e.v == v;
      SuccessorHasPredecessor(g, u, d - 1, e.u);
      assert e == Edge(e.u, v);
      PredecessorBehind(g, u, d - 1, e.u, v);
    }
  }

  lemma SpellsPlace(g: Graph, f: Fuzz, loops: bool, input: seq<Byte>, s: nat, ops: seq<Op>, n: nat, v: Vertex)
    requires g.Valid() && n <= |input| && Spells(g, f, loops, input, s, ops, n, v)
    ensures !g.IsAnyAccept(v)
    decreases |ops|
  {
    if ops != [] && ops[|ops| - 1].Insert? {
      SpellsPlace(g, f, loops, input, s, ops[..|ops| - 1], n - 1, v);
    }
  }

  /** The node that follows a script raises the report of the vertex where the script stands. */
  lemma PendingRaises(g: Graph, f: Fuzz, cfg: Config, input: seq<Byte>, n: nat, k: Node, d: nat, u: Vertex, accept: Vertex,
                      r: nat)
    requires Fuzzable(g) && !cfg.utf8 && n <= |input| && AcceptsAt(g, cfg, input, n, accept)
    requires Pending(g, k.idx, d, u) && (f.hamming ==> d == 0) && k.level + d <= f.dist
    requires g.HasEdge(u, accept) && !g.IsAnyAccept(u) && r in g.ReportsOf(u)
    ensures NodeRaises(g, f, cfg, input, n, k, accept, r)
  {
    hide CanReach, SuccessorsByDepth, PredecessorsByDepth;
    Unasserted(g, Prev(input, n), Cur(input, n));
    FurtherOn(g, k.idx, d, u, accept);
    SuccessorHasPredecessor(g, k.idx, d, accept);
    assert accept in ShadowTransitions(g, f, k.idx, d);
    assert AcceptsWithin(g, f, k.idx, f.dist - k.level, accept);
    if d > 0 {
      SuccessorHasPredecessor(g, k.idx, d - 1, u);
    }
    assert r in ReportsByLevel(g, f, k.level, k.idx, accept);
  }

  /** Every promised match is that of a run. */
  lemma SpellingIsRun(g: Graph, f: Fuzz, cfg: Config, input: seq<Byte>, m: Match)
    requires Fuzzable(g) && !cfg.utf8 && SpellingMatch(g, f, false, cfg, input, m)
    ensures RunMatch(g, f, cfg, input, m)
  {
    hide NodeRaises, Spells, Start, RunTo, Pending;
    var s: nat, ops, n: nat, u, accept, r: nat :| SpelledAt(g, f, false, cfg, input, m, s, ops, n, u, accept, r);
    SpellsPlace(g, f, false, input, s, ops, n, u);
    var k, d, w := FollowScript(g, f, input, s, ops, n, u);
    PendingRaises(g, f, cfg, input, n, k, d, u, accept, r);
    assert Carried(g, f, input, n, k, m.som);
  }

  /** A script at start serves for startDs too. */
  lemma {:induction false} StartAsStartDs(g: Graph, f: Fuzz, loops: bool, input: seq<Byte>, s: nat, ops: seq<Op>, n: nat)
    requires g.Valid() && n <= |input| && g.AllowsStartDs() && Spells(g, f, loops, input, s, ops, n, g.start)
    ensures Spells(g, f, loops, input, s, ops, n, g.startDs)
    decreases |ops|
  {
    if ops != [] {
      StartAsStartDs(g, f, loops, input, s, ops[..|ops| - 1], n - 1);
    }
  }

  /** Nothing but an accept lies behind an accept. */
  lemma AcceptLeadsNowhere(g: Graph, x: Vertex, d: nat, v: Vertex)
    requires Fuzzable(g) && x in PredecessorsByDepth(g, v, d) && g.IsAnyAccept(x)
    ensures g.IsAnyAccept(v)
  {
    assert forall e :: e in g.edges ==> InPlace(g, e);
  }

  /** On to v by skipping. */
  lemma {:induction false} SkipAhead(g: Graph, f: Fuzz, input: seq<Byte>, s: nat, ops: seq<Op>, n: nat, x: Vertex, d: nat,
                                     v: Vertex)
    returns (ops': seq<Op>)
    requires Fuzzable(g) && !f.hamming && n <= |input| && Spells(g, f, false, input, s, ops, n, x)
    requires x in PredecessorsByDepth(g, v, d) && !g.IsAnyAccept(v) && (v == g.startDs ==> g.AllowsStartDs())
    ensures Spells(g, f, false, input, s, ops', n, v) && Cost(ops') <= Cost(ops) + d + 1
    ensures Start(g, s, ops') == Start(g, s, ops)
    decreases d
  {
    hide Start;
    var e :| e in g.edges && e.u == x && e.u != e.v && (if d == 0 then e.v == v else e.v in PredecessorsByDepth(g, v, d - 1));
    var y := e.v;
    assert InPlace(g, e) && e == Edge(x, y);
    if d > 0 && g.IsAnyAccept(y) {
      AcceptLeadsNowhere(g, y, d - 1, v);
    }
    var more := ops;
    if y == g.startDs {
      assert g.AllowsStartDs();
      StartAsStartDs(g, f, false, input, s, ops, n);
    } else {
      more := ops + [Delete(y)];
      OneMore(g, s, ops, Delete(y));
    }
    ops' := more;
    if d > 0 {
      ops' := SkipAhead(g, f, input, s, more, n, y, d - 1, v);
    }
  }

  /** Every match of a run is promised. */
  lemma RunIsSpelling(g: Graph, f: Fuzz, cfg: Config, input: seq<Byte>, m: Match)
    requires Fuzzable(g) && RunMatch(g, f, cfg, input, m)
    ensures SpellingMatch(g, f, false, cfg, input, m)
  {
    hide Spells, Start, RunTo, PredecessorsByDepth, AcceptStates;
    var n: nat, k, accept, r: nat :|
      NodeRaises(g, f, cfg, input, n, k, accept, r) && Carried(g, f, input, n, k, m.som) && m.eom == cfg.End(n, r);
    var w :| RunTo(g, f, input, n, k, m.som, w);
    var s, ops := TellRun(g, f, input, n, k, m.som, w);
    var v, d := ReportingVertex(g, f, k, accept, r);
    var ops' := ops;
    if d > 0 {
      ops' := SkipAhead(g, f, input, s, ops, n, k.idx, d - 1, v);
    }
    assert SpelledAt(g, f, false, cfg, input, m, s, ops', n, v, accept, r);
  }

  /** The vertex whose report a node raises, and how far it is. */
  lemma ReportingVertex(g: Graph, f: Fuzz, k: Node, accept: Vertex, r: nat) returns (v: Vertex, d: nat)
    requires Fuzzable(g) && k.level <= f.dist && r in ReportsByLevel(g, f, k.level, k.idx, accept) && g.IsAnyAccept(accept)
    ensures g.HasEdge(v, accept) && r in g.ReportsOf(v) && k.level + d <= f.dist && !g.IsAnyAccept(v)
    ensures if d == 0 then v == k.idx else !f.hamming && k.idx in PredecessorsByDepth(g, v, d - 1)
    ensures v == g.startDs ==> g.AllowsStartDs()
  {
    hide PredecessorsByDepth;
    v :| 0 <= v < g.size && g.HasEdge(v, accept) && !(accept == g.acceptEod && v == g.accept) && r in g.ReportsOf(v) &&
         (k.idx == v || (!f.hamming && exists pd :: 0 <= pd < f.dist - k.level && k.idx in PredecessorsByDepth(g, v, pd)));
    assert InPlace(g, Edge(v, accept));
    assert v == g.startDs ==> Edge(v, accept) in g.edges;
    if k.idx == v {
      d := 0;
    } else {
      var pd: nat :| pd < f.dist - k.level && k.idx in PredecessorsByDepth(g, v, pd);
      d := pd + 1;
    }
  }

  /** The matcher finds exactly what is promised. */
  lemma LeftmostRunIsSpelling(g: Graph, f: Fuzz, cfg: Config, input: seq<Byte>, m: Match)
    requires Fuzzable(g) && !cfg.utf8
    ensures LeftmostRun(g, f, cfg, input, m) <==> LeftmostSpelling(g, f, false, cfg, input, m)
  {
    hide RunMatch, SpellingMatch, Fuzzable;
    forall som: nat
      ensures RunMatch(g, f, cfg, input, Match(som, m.eom)) <==> SpellingMatch(g, f, false, cfg, input, Match(som, m.eom))
    {
      var x := Match(som, m.eom);
      if RunMatch(g, f, cfg, input, x) {
        RunIsSpelling(g, f, cfg, input, x);
      }
      if SpellingMatch(g, f, false, cfg, input, x) {
        SpellingIsRun(g, f, cfg, input, x);
      }
    }
    assert m == Match(m.som, m.eom);
  }

  // Hamming distances -------------------------------------------------------------------------------------------

  /** Only special vertices lead to themselves. */
  ghost predicate Loopless(g: Graph) {
    forall v :: g.HasEdge(v, v) ==> g.IsSpecial(v)
  }

  /** Whether loops may be replaced matters only at a Hamming distance, and only where there are loops. */
  lemma {:induction false} SameSpellings(g: Graph, f: Fuzz, input: seq<Byte>, s: nat, ops: seq<Op>, n: nat, v: Vertex)
    requires n <= |input| && (f.hamming ==> Loopless(g))
    ensures Spells(g, f, true, input, s, ops, n, v) <==> Spells(g, f, false, input, s, ops, n, v)
    decreases |ops|
  {
    if ops != [] {
      var init := ops[..|ops| - 1];
      forall m: nat, u | m <= n
        ensures Spells(g, f, true, input, s, init, m, u) <==> Spells(g, f, false, input, s, init, m, u)
      {
        SameSpellings(g, f, input, s, init, m, u);
      }
    }
  }

  lemma SameLeftmost(g: Graph, f: Fuzz, cfg: Config, input: seq<Byte>, m: Match)
    requires f.hamming ==> Loopless(g)
    ensures LeftmostSpelling(g, f, true, cfg, input, m) <==> LeftmostSpelling(g, f, false, cfg, input, m)
  {
    hide Spells, Start, Loopless, SpellingMatch;
    forall som: nat
      ensures SpellingMatch(g, f, true, cfg, input, Match(som, m.eom)) <==>
              SpellingMatch(g, f, false, cfg, input, Match(som, m.eom))
    {
      SameMatch(g, f, cfg, input, Match(som, m.eom));
    }
    assert m == Match(m.som, m.eom);
  }

  lemma SameMatch(g: Graph, f: Fuzz, cfg: Config, input: seq<Byte>, m: Match)
    requires f.hamming ==> Loopless(g)
    ensures SpellingMatch(g, f, true, cfg, input, m) <==> SpellingMatch(g, f, false, cfg, input, m)
  {
    hide Spells, Start, Loopless;
    forall s: nat, ops, n: nat, u, accept, r: nat
      ensures SpelledAt(g, f, true, cfg, input, m, s, ops, n, u, accept, r) <==>
              SpelledAt(g, f, false, cfg, input, m, s, ops, n, u, accept, r)
    {
      if n <= |input| {
        SameSpellings(g, f, input, s, ops, n, u);
      }
    }
  }

  const ANY_BYTE := set b: Byte | 0 <= b < 256

  /** ^a+b: vertex 4 reads a, over and over, and vertex 5 reads b. */
  function Anchored(): Graph {
    Graph(6, map[Edge(0, 1) := 0, Edge(1, 1) := 0, Edge(2, 3) := 0, Edge(0, 4) := 0, Edge(4, 4) := 0, Edge(4, 5) := 0,
                 Edge(5, 2) := 0],
          map[1 := ANY_BYTE, 4 := {0x61}, 5 := {0x62}], map[5 := {0}], {}, 0, 1, 2, 3)
  }

  const ONE_BYTE := Fuzz(true, 1)
  const PLAIN := Config(map[], false, false)

  lemma AnchoredEdges(e: Edge)
    requires e in Anchored().edges
    ensures 0 <= e.u < 6 && 0 <= e.v < 6 && InPlace(Anchored(), e) && Anchored().edges[e] == 0
  {
  }

  lemma AnchoredPlaces()
    ensures var g := Anchored();
            && g.size == 6 && g.start == 0 && g.startDs == 1 && g.accept == 2 && g.acceptEod == 3 && g.virtualStarts == {}
            && g.HasEdge(1, 1) && g.HasEdge(0, 4) && g.HasEdge(4, 4) && g.HasEdge(4, 5) && g.HasEdge(5, 2)
            && g.Accepts(4, 0x61) && g.Accepts(5, 0x62) && 0 in g.ReportsOf(5) && forall c: Byte :: g.Accepts(1, c)
  {
  }

  lemma AnchoredFuzzable()
    ensures Fuzzable(Anchored())
  {
    hide Anchored, InPlace;
    AnchoredPlaces();
    forall e | e in Anchored().edges
      ensures 0 <= e.u < 6 && 0 <= e.v < 6 && InPlace(Anchored(), e) && Anchored().edges[e] == 0
    {
      AnchoredEdges(e);
    }
  }

  /** aXb differs from aab in one byte, and is not found. */
  lemma ReplacedLoopMissed()
    ensures ONE_BYTE == Fuzz(true, 1) && PLAIN == Config(map[], false, false) && Fuzzable(Anchored())
    ensures SpellingMatch(Anchored(), ONE_BYTE, true, PLAIN, [0x61, 0x58, 0x62], Match(0, 3))
    ensures forall som :: !RunMatch(Anchored(), ONE_BYTE, PLAIN, [0x61, 0x58, 0x62], Match(som, 3))
  {
    hide RunMatch, SpellingMatch, Fuzzable, Anchored;
    AnchoredFuzzable();
    LoopSpelled();
    forall som | RunMatch(Anchored(), ONE_BYTE, PLAIN, [0x61, 0x58, 0x62], Match(som, 3))
      ensures false
    {
      RunIsSpelling(Anchored(), ONE_BYTE, PLAIN, [0x61, 0x58, 0x62], Match(som, 3));
      NotSpelled(som);
    }
  }

  lemma LoopSpelled()
    ensures SpellingMatch(Anchored(), ONE_BYTE, true, PLAIN, [0x61, 0x58, 0x62], Match(0, 3))
  {
    hide Anchored;
    AnchoredPlaces();
    var g, f, input := Anchored(), ONE_BYTE, [0x61, 0x58, 0x62];
    var one := [] + [Keep(4)];
    var two := one + [Replace(4)];
    var three := two + [Keep(5)];
    assert Spells(g, f, true, input, 0, [], 0, 0);
    hide Spells, Start, Later, AtVirtual;
    KeepSpells(g, f, true, input, 0, [], 0, 0, 4);
    ReplaceSpells(g, f, true, input, 0, one, 1, 4, 4);
    KeepSpells(g, f, true, input, 0, two, 2, 4, 5);
    SpellsTrace(g, three);
    assert SpelledAt(g, f, true, PLAIN, input, Match(0, 3), 0, three, 3, 5, 2, 0);
  }

  lemma SpellsTrace(g: Graph, ops: seq<Op>)
    requires ops == [] + [Keep(4)] + [Replace(4)] + [Keep(5)] && g.virtualStarts == {}
    ensures Cost(ops) == 1 && Start(g, 0, ops) == 0
  {
    var one: seq<Op> := [] + [Keep(4)];
    OneMore(g, 0, [], Keep(4));
    OneMore(g, 0, one, Replace(4));
    OneMore(g, 0, one + [Replace(4)], Keep(5));
  }

  lemma NotSpelled(som: nat)
    ensures !SpellingMatch(Anchored(), ONE_BYTE, false, PLAIN, [0x61, 0x58, 0x62], Match(som, 3))
  {
    var g, f, input := Anchored(), ONE_BYTE, [0x61, 0x58, 0x62];
    forall s: nat, ops, n: nat, u, accept, r: nat
      ensures !SpelledAt(g, f, false, PLAIN, input, Match(som, 3), s, ops, n, u, accept, r)
    {
      if SpelledAt(g, f, false, PLAIN, input, Match(som, 3), s, ops, n, u, accept, r) {
        assert u == 5 && n == 3;
        StuckAtLoop(s, ops[..|ops| - 1]);
      }
    }
  }

  lemma StuckAtLoop(s: nat, ops: seq<Op>)
    ensures !Spells(Anchored(), ONE_BYTE, false, [0x61, 0x58, 0x62], s, ops, 2, 4)
  {
    if ops != [] {
      assert !Spells(Anchored(), ONE_BYTE, false, [0x61, 0x58, 0x62], s, ops[..|ops| - 1], 1, 0);
    }
  }
}
