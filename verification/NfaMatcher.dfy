/** The reference matcher: all matches of a graph against an input. */
module NfaMatcher {
  import opened Common
  import opened NfaGraph
  import opened NfaWalks
  import opened StateSets
  import opened NfaStep
  import opened NfaAlign
  import opened NfaSpelling
  import opened NfaReports
  import opened MatchFilter
  import opened Ranges

  const STATE_COUNT_MAX: nat := 15000
  ghost predicate RaisedMatch(g: Graph, f: Fuzz, cfg: Config, prev: Byte, cur: Byte, offset: nat, accept: Vertex,
                              view: map<Node, nat>, m: Match)
  {
    exists k, r :: k in view && k.level <= f.dist && Raises(g, f, cfg, prev, cur, accept, k, r) &&
      m == Match(view[k], cfg.End(offset, r))
  }

  method GetAcceptMatches(g: Graph, f: Fuzz, cfg: Config, prev: Byte, cur: Byte, offset: nat, accept: Vertex,
                          states: StateSet) returns (found: set<Match>)
    requires states.Valid() && states.dist == f.dist
    requires forall k :: k in states.view && k.helper ==> k.level > 0
    ensures forall m :: m in found <==> RaisedMatch(g, f, cfg, prev, cur, offset, accept, states.view, m)
  {
    hide Accepting, ReportsByLevel, Config.End;
    ghost var view := states.view;
    var active := states.GetActiveStates();
    found := {};
    for i := 0 to |active|
      invariant forall m :: m in found ==> RaisedMatch(g, f, cfg, prev, cur, offset, accept, view, m)
      invariant forall j, r :: 0 <= j < i && active[j].node.level <= f.dist
                  && Raises(g, f, cfg, prev, cur, accept, active[j].node, r)
                  ==> Match(active[j].som, cfg.End(offset, r)) in found
    {
      assert active[i] in active;
      var k, som := active[i].node, active[i].som;
      if Accepting(g, f, cfg, prev, cur, accept, k) {
        var more := set r | r in ReportsByLevel(g, f, k.level, k.idx, accept) :: Match(som, cfg.End(offset, r));
        found := found + more;
      }
    }
    forall m | RaisedMatch(g, f, cfg, prev, cur, offset, accept, view, m) ensures m in found {
      var k, r :| k in view && k.level <= f.dist && Raises(g, f, cfg, prev, cur, accept, k, r) &&
        m == Match(view[k], cfg.End(offset, r));
      assert State(k, view[k]) in active;
      var j :| 0 <= j < |active| && active[j] == State(k, view[k]);
    }
  }

  /** Walks only: the active nodes of exact matching as a map from vertices. */
  ghost predicate Flat(view: map<Node, nat>, active: map<Vertex, nat>) {
    && (forall k :: k in view ==> k == Node(false, 0, k.idx) && k.idx in active && active[k.idx] == view[k])
    && (forall v :: v in active ==> Node(false, 0, v) in view)
  }

  ghost function Flatten(view: map<Node, nat>): (active: map<Vertex, nat>)
    requires forall k :: k in view ==> k == Node(false, 0, k.idx)
    ensures Flat(view, active)
  {
    map k | k in view :: k.idx := view[k]
  }

  const EXACT: Fuzz := Fuzz(false, 0)

  lemma ExactSuccessors(g: Graph, u: Vertex, v: Vertex)
    ensures v in ShadowTransitions(g, EXACT, u, 0) <==> g.HasEdge(u, v)
  {
    if g.HasEdge(u, v) {
      assert Edge(u, v).u == u && Edge(u, v).v == v;
    }
  }

  lemma ExactSteps(g: Graph, input: seq<Byte>, n: nat, u: Vertex, v: Vertex)
    requires n < |input|
    ensures Steps(g, EXACT, Prev(input, n), input[n], Node(false, 0, u), Node(false, 0, v)) <==> Moves(g, input, n, u, v)
  {
    hide CanReach, ShadowTransitions;
    ExactSuccessors(g, u, v);
  }

  lemma ExactLevels(g: Graph, prev: Byte, cur: Byte, c: Node, k: Node)
    requires Steps(g, EXACT, prev, cur, c, k) && c.level == 0
    ensures k == Node(false, 0, k.idx)
  {
  }

  /** With no edits, a step of the matcher is a least step of walks. */
  lemma ExactStepIsLeastStep(g: Graph, input: seq<Byte>, n: nat, view: map<Node, nat>, active: map<Vertex, nat>, next: map<Node, nat>)
    requires n < |input| && Flat(view, active)
    requires StepsTo(g, EXACT, Prev(input, n), input[n], n, view, next)
    ensures forall k :: k in next ==> k == Node(false, 0, k.idx)
    ensures LeastStep(g, input, n, active, Flatten(next))
  {
    hide Steps, Moves;
    var p, c0 := Prev(input, n), input[n];
    forall k | k in next ensures k == Node(false, 0, k.idx) {
      var c :| c in view && Steps(g, EXACT, p, c0, c, k);
      ExactLevels(g, p, c0, c, k);
    }
    var flat := Flatten(next);
    forall u, v | Candidate(g, input, n, active, u, v) ensures v in flat && flat[v] <= CandidateSom(g, n, active, u) {
      ExactSteps(g, input, n, u, v);
      assert Node(false, 0, u) in view && Steps(g, EXACT, p, c0, Node(false, 0, u), Node(false, 0, v));
    }
    forall v | v in flat
      ensures exists u :: Candidate(g, input, n, active, u, v) && flat[v] == CandidateSom(g, n, active, u)
    {
      var k := Node(false, 0, v);
      var c :| c in view && Steps(g, EXACT, p, c0, c, k) && next[k] == NextSom(g, c, view[c], n);
      ExactSteps(g, input, n, c.idx, v);
      assert Candidate(g, input, n, active, c.idx, v);
    }
  }

  /** The matches raised at offset n; end-of-data matches only after the last byte. */
  ghost predicate RaisedAt(g: Graph, f: Fuzz, cfg: Config, input: seq<Byte>, n: nat, view: map<Node, nat>, m: Match)
    requires n <= |input|
  {
    || RaisedMatch(g, f, cfg, Prev(input, n), Cur(input, n), n, g.accept, view, m)
    || (n == |input| && !cfg.notEod && RaisedMatch(g, f, cfg, Prev(input, n), Cur(input, n), n, g.acceptEod, view, m))
  }

  /** Vertex u is accepting at offset n. */
  predicate VertexAccepts(g: Graph, cfg: Config, input: seq<Byte>, n: nat, u: Vertex, accept: Vertex)
    requires n <= |input|
  {
    && g.HasEdge(u, accept)
    && !(cfg.utf8 && u == g.startDs && !IsUtf8CodePoint(Cur(input, n)))
    && CanReach(g.edges[Edge(u, accept)], Prev(input, n), Cur(input, n))
  }

  /** Vertex u reports end e at offset n. */
  ghost predicate VertexReports(g: Graph, cfg: Config, input: seq<Byte>, n: nat, u: Vertex, e: nat)
    requires n <= |input|
  {
    && (exists r :: r in g.ReportsOf(u) && e == cfg.End(n, r))
    && (VertexAccepts(g, cfg, input, n, u, g.accept) ||
        (n == |input| && !cfg.notEod && u != g.accept && VertexAccepts(g, cfg, input, n, u, g.acceptEod)))
  }

  /** An accepting walk with its start of match and reported end. */
  ghost predicate MatchingWalk(g: Graph, cfg: Config, input: seq<Byte>, n: nat, w: seq<Vertex>, m: Match) {
    n <= |input| && |w| == n + 1 && WalkTo(g, input, n, w[n], m.som, w) && VertexReports(g, cfg, input, n, w[n], m.eom)
  }

  /** The leftmost accepting walks: for a reported end, the least start of all accepting walks. */
  ghost predicate LeftmostMatch(g: Graph, cfg: Config, input: seq<Byte>, m: Match) {
    && (exists n, w :: MatchingWalk(g, cfg, input, n, w, m))
    && (forall n, w, som :: MatchingWalk(g, cfg, input, n, w, Match(som, m.eom)) ==> m.som <= som)
  }

  /** `som` is the least start of the walks that reach u in n bytes. */
  ghost predicate Least(g: Graph, input: seq<Byte>, n: nat, u: Vertex, som: nat) {
    && (exists w :: WalkTo(g, input, n, u, som, w))
    && (forall s, w :: WalkTo(g, input, n, u, s, w) ==> som <= s)
  }

  lemma ExactIsLeast(g: Graph, input: seq<Byte>, n: nat, active: map<Vertex, nat>, u: Vertex, som: nat)
    requires Exact(g, input, n, active)
    ensures u in active && active[u] == som <==> Least(g, input, n, u, som)
  {
    hide WalkTo;
    if Least(g, input, n, u, som) {
      var w :| WalkTo(g, input, n, u, som, w);
      assert u in active && active[u] <= som;
    }
  }

  lemma ExactRaises(g: Graph, cfg: Config, input: seq<Byte>, n: nat, u: Vertex, accept: Vertex, r: nat)
    requires n <= |input| && g.Valid()
    ensures Raises(g, EXACT, cfg, Prev(input, n), Cur(input, n), accept, Node(false, 0, u), r) <==>
            VertexAccepts(g, cfg, input, n, u, accept) && !(accept == g.acceptEod && u == g.accept) && r in g.ReportsOf(u)
  {
    hide CanReach, ShadowTransitions;
    ExactSuccessors(g, u, accept);
    assert AcceptsWithin(g, EXACT, u, 0, accept) <==> g.HasEdge(u, accept);
  }

  /** What exact matching raises at offset n, in terms of walks. */
  lemma ExactRaised(g: Graph, cfg: Config, input: seq<Byte>, n: nat, view: map<Node, nat>, active: map<Vertex, nat>, m: Match)
    requires n <= |input| && g.Valid() && Flat(view, active) && Exact(g, input, n, active)
    ensures RaisedAt(g, EXACT, cfg, input, n, view, m) <==>
            exists u :: Least(g, input, n, u, m.som) && VertexReports(g, cfg, input, n, u, m.eom)
  {
    hide Raises, VertexAccepts, Least;
    var prev, cur := Prev(input, n), Cur(input, n);
    forall u, accept, r
      ensures Raises(g, EXACT, cfg, prev, cur, accept, Node(false, 0, u), r) <==>
              VertexAccepts(g, cfg, input, n, u, accept) && !(accept == g.acceptEod && u == g.accept) && r in g.ReportsOf(u)
    {
      ExactRaises(g, cfg, input, n, u, accept, r);
    }
    forall u ensures u in active && active[u] == m.som <==> Least(g, input, n, u, m.som) {
      ExactIsLeast(g, input, n, active, u, m.som);
    }
    forall accept | RaisedMatch(g, EXACT, cfg, prev, cur, n, accept, view, m)
      ensures exists u, r :: u in active && active[u] == m.som && m.eom == cfg.End(n, r) &&
                Raises(g, EXACT, cfg, prev, cur, accept, Node(false, 0, u), r)
    {
      var k, r :| k in view && k.level <= 0 && Raises(g, EXACT, cfg, prev, cur, accept, k, r) && m == Match(view[k], cfg.End(n, r));
      assert k == Node(false, 0, k.idx);
    }
    forall u, r, accept | u in active && active[u] == m.som && m.eom == cfg.End(n, r) &&
        Raises(g, EXACT, cfg, prev, cur, accept, Node(false, 0, u), r)
      ensures RaisedMatch(g, EXACT, cfg, prev, cur, n, accept, view, m)
    {
      assert Node(false, 0, u) in view;
    }
  }

  /** The unfiltered matches at offsets below `upto`. */
  ghost predicate Raw(g: Graph, cfg: Config, input: seq<Byte>, upto: nat, m: Match) {
    exists n, u :: 0 <= n < upto && n <= |input| && Least(g, input, n, u, m.som) && VertexReports(g, cfg, input, n, u, m.eom)
  }

  /** Matches are collected offset by offset. */
  lemma RawStep(g: Graph, cfg: Config, input: seq<Byte>, n: nat, view: map<Node, nat>, m: Match)
    requires n <= |input| && g.Valid()
    requires forall k :: k in view ==> k == Node(false, 0, k.idx)
    requires Exact(g, input, n, Flatten(view))
    ensures Raw(g, cfg, input, n + 1, m) <==> Raw(g, cfg, input, n, m) || RaisedAt(g, EXACT, cfg, input, n, view, m)
  {
    hide Least, VertexReports, RaisedAt;
    ExactRaised(g, cfg, input, n, view, Flatten(view), m);
  }

  /** Once no state is left, later offsets add nothing. */
  lemma RawStops(g: Graph, cfg: Config, input: seq<Byte>, n: nat, m: Match)
    requires n <= |input| && Exact(g, input, n, map[])
    ensures Raw(g, cfg, input, |input| + 1, m) <==> Raw(g, cfg, input, n, m)
  {
    forall n', u | n <= n' <= |input| ensures !Least(g, input, n', u, m.som) {
      if Least(g, input, n', u, m.som) {
        var w :| WalkTo(g, input, n', u, m.som, w);
        DeadStaysDead(g, input, n, n', u, m.som, w);
      }
    }
  }

  lemma {:induction false} SomBound(g: Graph, w: seq<Vertex>)
    ensures WalkSom(g, w) == 0 || WalkSom(g, w) + 2 <= |w|
    decreases |w|
  {
    if |w| > 1 && !Resets(g, w[|w| - 2]) {
      SomBound(g, w[..|w| - 1]);
    }
  }

  lemma RawSomBound(g: Graph, cfg: Config, input: seq<Byte>, upto: nat, m: Match)
    requires Raw(g, cfg, input, upto, m)
    ensures m.som == 0 || m.som < |input|
  {
    var n, u :| 0 <= n < upto && n <= |input| && Least(g, input, n, u, m.som) && VertexReports(g, cfg, input, n, u, m.eom);
    var w :| WalkTo(g, input, n, u, m.som, w);
    SomBound(g, w);
  }

  lemma RawIsMatching(g: Graph, cfg: Config, input: seq<Byte>, m: Match)
    requires Raw(g, cfg, input, |input| + 1, m)
    ensures exists n, w :: MatchingWalk(g, cfg, input, n, w, m)
  {
    hide VertexReports;
    var n, u :| 0 <= n <= |input| && Least(g, input, n, u, m.som) && VertexReports(g, cfg, input, n, u, m.eom);
    var w :| WalkTo(g, input, n, u, m.som, w);
    assert MatchingWalk(g, cfg, input, n, w, m);
  }

  lemma MatchingIsCovered(g: Graph, cfg: Config, input: seq<Byte>, n: nat, w: seq<Vertex>, m: Match) returns (som: nat)
    requires MatchingWalk(g, cfg, input, n, w, m)
    ensures som <= m.som && Raw(g, cfg, input, |input| + 1, Match(som, m.eom))
  {
    hide VertexReports, WalkTo;
    som := LeastExists(g, input, n, w[n], m.som, w);
  }

  lemma {:induction false} LeastExists(g: Graph, input: seq<Byte>, n: nat, u: Vertex, som: nat, w: seq<Vertex>) returns (least: nat)
    requires WalkTo(g, input, n, u, som, w)
    ensures least <= som && Least(g, input, n, u, least)
    decreases som
  {
    hide WalkTo;
    if s: nat, x: seq<Vertex> :| WalkTo(g, input, n, u, s, x) && s < som {
      least := LeastExists(g, input, n, u, s, x);
    } else {
      least := som;
    }
  }

  /** Filtering the raw matches leaves exactly the leftmost accepting walks. */
  lemma FilteredIsLeftmost(g: Graph, cfg: Config, input: seq<Byte>, raw: set<Match>, m: Match)
    requires |input| <= CAP + 1
    requires forall x :: x in raw <==> Raw(g, cfg, input, |input| + 1, x)
    ensures m in Filtered(raw) <==> LeftmostMatch(g, cfg, input, m)
  {
    hide MatchingWalk, Raw;
    if m in Filtered(raw) {
      RawIsMatching(g, cfg, input, m);
      forall n, w, som | MatchingWalk(g, cfg, input, n, w, Match(som, m.eom)) ensures m.som <= som {
        var s := MatchingIsCovered(g, cfg, input, n, w, Match(som, m.eom));
        assert Match(s, m.eom) in raw;
      }
    }
    if LeftmostMatch(g, cfg, input, m) {
      var n, w :| MatchingWalk(g, cfg, input, n, w, m);
      var s := MatchingIsCovered(g, cfg, input, n, w, m);
      var x := Match(s, m.eom);
      RawIsMatching(g, cfg, input, x);
      assert x == m;
      assert m in raw;
      RawSomBound(g, cfg, input, |input| + 1, m);
      forall y | y in raw && y.eom == m.eom ensures m.som <= y.som {
        RawIsMatching(g, cfg, input, y);
        assert y == Match(y.som, m.eom);
      }
    }
  }

  /** A script within the edit budget that leads over the first n bytes to the accept vertex. */
  ghost predicate SpelledBy(g: Graph, f: Fuzz, input: seq<Byte>, n: nat, accept: Vertex, u: Vertex, ops: seq<Op>) {
    && n <= |input| && Aligned(g, input, ops, n, u) && g.HasEdge(u, accept) && Cost(ops) <= f.dist
    && (f.hamming ==> forall op :: op in ops ==> op.Keep? || op.Replace?)
    && (Settled(ops) ==> CanReach(g.edges[Edge(u, accept)], Prev(input, n), Cur(input, n)))
  }

  ghost predicate Spelled(g: Graph, f: Fuzz, input: seq<Byte>, n: nat, accept: Vertex) {
    exists u, ops :: SpelledBy(g, f, input, n, accept, u, ops)
  }

  /** A match of some run, with a script that leads to the accept vertex within the edit budget. */
  ghost predicate ApproxMatch(g: Graph, f: Fuzz, cfg: Config, input: seq<Byte>, m: Match) {
    exists n: nat, k, accept, r: nat ::
      && NodeRaises(g, f, cfg, input, n, k, accept, r) && Carried(g, f, input, n, k, m.som) && m.eom == cfg.End(n, r)
      && Spelled(g, f, input, n, accept)
  }

  /** A justified node that raises a report has a script to the accept vertex. */
  lemma RaisingIsSpelled(g: Graph, f: Fuzz, cfg: Config, input: seq<Byte>, n: nat, k: Node, accept: Vertex, r: nat)
    requires NodeRaises(g, f, cfg, input, n, k, accept, r) && Justified(g, f, input, n, k)
    ensures Spelled(g, f, input, n, accept)
  {
    hide CanReach, ReportsByLevel, SuccessorsByDepth, Aligned;
    var ops :| Justifies(g, f, input, n, k, ops);
    assert AcceptsWithin(g, f, k.idx, f.dist - k.level, accept);
    var d: nat :| d <= f.dist - k.level && accept in ShadowTransitions(g, f, k.idx, d);
    if accept in SuccessorsByDepth(g, k.idx, d) && (f.hamming ==> d == 0) {
      var u, ops' := SkipTo(g, input, n, k.idx, d, accept, ops);
      assert SpelledBy(g, f, input, n, accept, u, ops');
    } else {
      assert k.idx == accept && g.HasEdge(accept, accept);
      assert SpelledBy(g, f, input, n, accept, k.idx, ops);
    }
  }

  lemma RaisedIsApprox(g: Graph, f: Fuzz, cfg: Config, input: seq<Byte>, n: nat, view: map<Node, nat>, m: Match)
    requires n <= |input| && Sound(g, f, input, n, view) && RaisedAt(g, f, cfg, input, n, view, m)
    ensures ApproxMatch(g, f, cfg, input, m)
  {
    hide Justified, Raises, Spelled, Carried;
    var accept := if RaisedMatch(g, f, cfg, Prev(input, n), Cur(input, n), n, g.accept, view, m) then g.accept else g.acceptEod;
    var k, r :| k in view && k.level <= f.dist &&
      Raises(g, f, cfg, Prev(input, n), Cur(input, n), accept, k, r) && m == Match(view[k], cfg.End(n, r));
    RaisingIsSpelled(g, f, cfg, input, n, k, accept, r);
    assert NodeRaises(g, f, cfg, input, n, k, accept, r);
  }

  lemma ApproxIsRun(g: Graph, f: Fuzz, cfg: Config, input: seq<Byte>, m: Match)
    requires ApproxMatch(g, f, cfg, input, m)
    ensures RunMatch(g, f, cfg, input, m)
  {
    hide NodeRaises, Carried, Spelled;
  }

  /** A match with this end that starts no later has been found. */
  ghost predicate Found(matches: set<Match>, som: nat, eom: nat) {
    exists s: nat :: s <= som && Match(s, eom) in matches
  }

  /** No run that raises a report before offset n has been missed. */
  ghost predicate FoundBelow(g: Graph, f: Fuzz, cfg: Config, input: seq<Byte>, n: nat, matches: set<Match>) {
    forall i: nat, k, accept, r: nat, som: nat ::
      i < n && NodeRaises(g, f, cfg, input, i, k, accept, r) && Carried(g, f, input, i, k, som) ==>
        Found(matches, som, cfg.End(i, r))
  }

  lemma FoundStep(g: Graph, f: Fuzz, cfg: Config, input: seq<Byte>, n: nat, view: map<Node, nat>, matches: set<Match>,
                  found: set<Match>)
    requires n <= |input| && Complete(g, f, input, n, view) && FoundBelow(g, f, cfg, input, n, matches)
    requires forall m :: m in found <==> RaisedAt(g, f, cfg, input, n, view, m)
    ensures FoundBelow(g, f, cfg, input, n + 1, matches + found)
  {
    hide Raises, RunTo;
    forall i: nat, k, accept, r: nat, som: nat
      | i < n + 1 && NodeRaises(g, f, cfg, input, i, k, accept, r) && Carried(g, f, input, i, k, som)
      ensures Found(matches + found, som, cfg.End(i, r))
    {
      if i < n {
        assert Found(matches, som, cfg.End(i, r));
      } else {
        var w :| RunTo(g, f, input, n, k, som, w);
        assert RaisedMatch(g, f, cfg, Prev(input, n), Cur(input, n), n, accept, view, Match(view[k], cfg.End(n, r)));
        assert Match(view[k], cfg.End(n, r)) in found;
      }
    }
  }

  /** Once no node is left, no run goes on. */
  lemma {:induction false} NoRunAfter(g: Graph, f: Fuzz, input: seq<Byte>, n: nat, i: nat, k: Node, som: nat, w: seq<Node>)
    requires n <= i <= |input| && Complete(g, f, input, n, map[])
    ensures !RunTo(g, f, input, i, k, som, w)
    decreases i
  {
    hide Steps;
    if n < i && RunTo(g, f, input, i, k, som, w) {
      SplitRun(g, f, input, i - 1, k, som, w);
      NoRunAfter(g, f, input, n, i - 1, w[i - 1], RunSom(g, w[..i]), w[..i]);
    }
  }

  lemma FoundAll(g: Graph, f: Fuzz, cfg: Config, input: seq<Byte>, n: nat, matches: set<Match>)
    requires n <= |input| && Complete(g, f, input, n, map[]) && FoundBelow(g, f, cfg, input, n, matches)
    ensures FoundBelow(g, f, cfg, input, |input| + 1, matches)
  {
    hide Raises, RunTo, Complete;
    forall i: nat, k, accept, r: nat, som: nat
      | i < |input| + 1 && NodeRaises(g, f, cfg, input, i, k, accept, r) && Carried(g, f, input, i, k, som)
      ensures Found(matches, som, cfg.End(i, r))
    {
      if i >= n {
        var w :| RunTo(g, f, input, i, k, som, w);
        NoRunAfter(g, f, input, n, i, k, som, w);
      }
    }
  }

  lemma {:induction false} RunSomBound(g: Graph, w: seq<Node>)
    ensures RunSom(g, w) == 0 || RunSom(g, w) + 2 <= |w|
    decreases |w|
  {
    hide ResetsSom;
    if |w| > 1 {
      RunSomBound(g, w[..|w| - 1]);
    }
  }

  /** Filtering what was found leaves exactly the leftmost match of all runs per end. */
  lemma FilteredIsLeftmostRun(g: Graph, f: Fuzz, cfg: Config, input: seq<Byte>, raw: set<Match>, m: Match)
    requires |input| <= CAP + 1
    requires forall x :: x in raw ==> RunMatch(g, f, cfg, input, x)
    requires FoundBelow(g, f, cfg, input, |input| + 1, raw)
    ensures m in Filtered(raw) <==> LeftmostRun(g, f, cfg, input, m)
  {
    hide RunMatch, FoundBelow;
    forall som: nat | RunMatch(g, f, cfg, input, Match(som, m.eom))
      ensures Found(raw, som, m.eom) && som <= CAP
    {
      RunMatchFound(g, f, cfg, input, raw, Match(som, m.eom));
    }
    if LeftmostRun(g, f, cfg, input, m) {
      assert m == Match(m.som, m.eom);
      var s: nat :| s <= m.som && Match(s, m.eom) in raw;
      forall x | x in raw && x.eom == m.eom
        ensures m.som <= x.som
      {
        assert x == Match(x.som, m.eom);
      }
    }
  }

  lemma RunMatchFound(g: Graph, f: Fuzz, cfg: Config, input: seq<Byte>, raw: set<Match>, m: Match)
    requires |input| <= CAP + 1 && FoundBelow(g, f, cfg, input, |input| + 1, raw) && RunMatch(g, f, cfg, input, m)
    ensures Found(raw, m.som, m.eom) && m.som <= CAP
  {
    hide Raises, IsRun, RunSom;
    var n: nat, k, accept, r: nat :|
      NodeRaises(g, f, cfg, input, n, k, accept, r) && Carried(g, f, input, n, k, m.som) && m.eom == cfg.End(n, r);
    assert n < |input| + 1;
    var w :| RunTo(g, f, input, n, k, m.som, w);
    RunSomBound(g, w);
  }

  /** The states before the first byte. */
  method InitialStates(g: Graph, f: Fuzz) returns (states: StateSet)
    ensures fresh(states) && states.Valid() && states.dist == f.dist
    ensures forall k :: k in states.view <==> k == Node(false, 0, k.idx) && Initial(g, k.idx)
    ensures forall k :: k in states.view ==> states.view[k] == 0
  {
    states := new StateSet(g.size, f.dist);
    states.ActivateState(Node(false, 0, g.start), 0);
    if g.AllowsStartDs() {
      states.ActivateState(Node(false, 0, g.startDs), 0);
    }
  }

  /** The matches at one offset; end-of-data matches only where asked for. */
  method GetMatches(g: Graph, f: Fuzz, cfg: Config, input: seq<Byte>, n: nat, states: StateSet) returns (found: set<Match>)
    requires n <= |input| && states.Valid() && states.dist == f.dist
    requires forall k :: k in states.view && k.helper ==> k.level > 0
    ensures forall m :: m in found <==> RaisedAt(g, f, cfg, input, n, states.view, m)
  {
    found := GetAcceptMatches(g, f, cfg, Prev(input, n), Cur(input, n), n, g.accept, states);
    if n == |input| && !cfg.notEod {
      var more := GetAcceptMatches(g, f, cfg, Prev(input, n), Cur(input, n), n, g.acceptEod, states);
      found := found + more;
    }
  }

  /** What holds between bytes, for any edit distance and then for none. */
  ghost predicate Midway(g: Graph, f: Fuzz, cfg: Config, input: seq<Byte>, n: nat, view: map<Node, nat>, matches: set<Match>)
    requires n <= |input|
  {
    && Sound(g, f, input, n, view) && Complete(g, f, input, n, view)
    && (forall k :: k in view && k.helper ==> k.level > 0)
    && (forall m :: m in matches ==> ApproxMatch(g, f, cfg, input, m)) && FoundBelow(g, f, cfg, input, n, matches)
    && (f == EXACT ==>
          && (forall k :: k in view ==> k == Node(false, 0, k.idx))
          && Exact(g, input, n, Flatten(view))
          && (forall m :: m in matches <==> Raw(g, cfg, input, n, m)))
  }

  lemma MidwayStart(g: Graph, f: Fuzz, cfg: Config, input: seq<Byte>, view: map<Node, nat>)
    requires forall k :: k in view <==> k == Node(false, 0, k.idx) && Initial(g, k.idx)
    requires forall k :: k in view ==> view[k] == 0
    ensures Midway(g, f, cfg, input, 0, view, {})
  {
    InitialSound(g, f, input, view);
    InitialComplete(g, f, input, view);
    var flat := Flatten(view);
    forall v ensures v in flat <==> Initial(g, v) {
      assert Node(false, 0, v).idx == v;
    }
    InitialExact(g, input, flat);
  }

  /** Matches at offset n, then byte n. */
  lemma MidwayStep(g: Graph, f: Fuzz, cfg: Config, input: seq<Byte>, n: nat, view: map<Node, nat>, next: map<Node, nat>,
                   matches: set<Match>, found: set<Match>)
    requires n < |input| && g.Valid() && Midway(g, f, cfg, input, n, view, matches)
    requires forall m :: m in found <==> RaisedAt(g, f, cfg, input, n, view, m)
    requires StepsTo(g, f, Prev(input, n), input[n], n, view, next)
    requires forall k :: k in next && k.helper ==> k.level > 0
    ensures Midway(g, f, cfg, input, n + 1, next, matches + found)
  {
    hide Sound, Complete, ApproxMatch, FoundBelow, RaisedAt, StepsTo, Exact, Raw;
    StepKeepsSound(g, f, input, n, view, next);
    StepKeepsComplete(g, f, input, n, view, next);
    FoundStep(g, f, cfg, input, n, view, matches, found);
    forall m | m in found ensures ApproxMatch(g, f, cfg, input, m) {
      RaisedIsApprox(g, f, cfg, input, n, view, m);
    }
    if f == EXACT {
      ExactStepIsLeastStep(g, input, n, view, Flatten(view), next);
      StepKeepsExact(g, input, n, Flatten(view), Flatten(next));
      forall m ensures m in matches + found <==> Raw(g, cfg, input, n + 1, m) {
        RawStep(g, cfg, input, n, view, m);
      }
    }
  }

  lemma MidwayEnd(g: Graph, f: Fuzz, cfg: Config, input: seq<Byte>, view: map<Node, nat>, matches: set<Match>, found: set<Match>)
    requires g.Valid() && Midway(g, f, cfg, input, |input|, view, matches)
    requires forall m :: m in found <==> RaisedAt(g, f, cfg, input, |input|, view, m)
    ensures forall m :: m in matches + found ==> ApproxMatch(g, f, cfg, input, m)
    ensures FoundBelow(g, f, cfg, input, |input| + 1, matches + found)
    ensures f == EXACT ==> forall m :: m in matches + found <==> Raw(g, cfg, input, |input| + 1, m)
  {
    hide Sound, Complete, ApproxMatch, FoundBelow, RaisedAt, Exact, Raw;
    FoundStep(g, f, cfg, input, |input|, view, matches, found);
    forall m | m in found ensures ApproxMatch(g, f, cfg, input, m) {
      RaisedIsApprox(g, f, cfg, input, |input|, view, m);
    }
    if f == EXACT {
      forall m ensures m in matches + found <==> Raw(g, cfg, input, |input| + 1, m) {
        RawStep(g, cfg, input, |input|, view, m);
      }
    }
  }

  lemma MidwayDead(g: Graph, f: Fuzz, cfg: Config, input: seq<Byte>, n: nat, matches: set<Match>)
    requires n <= |input| && Midway(g, f, cfg, input, n, map[], matches)
    ensures FoundBelow(g, f, cfg, input, |input| + 1, matches)
    ensures f == EXACT ==> forall m :: m in matches <==> Raw(g, cfg, input, |input| + 1, m)
  {
    hide Raw, Sound, Complete, ApproxMatch, FoundBelow, Exact;
    FoundAll(g, f, cfg, input, n, matches);
    if f == EXACT {
      assert Flatten(map[]) == map[];
      forall m ensures m in matches <==> Raw(g, cfg, input, |input| + 1, m) {
        RawStops(g, cfg, input, n, m);
      }
    }
  }

  /** All raw matches are collected, and nothing else. */
  ghost predicate Collected(g: Graph, f: Fuzz, cfg: Config, input: seq<Byte>, raw: set<Match>) {
    && (forall m :: m in raw ==> ApproxMatch(g, f, cfg, input, m)) && FoundBelow(g, f, cfg, input, |input| + 1, raw)
    && (f == EXACT ==> forall m :: m in raw <==> Raw(g, cfg, input, |input| + 1, m))
  }

  lemma MidwayFacts(g: Graph, f: Fuzz, cfg: Config, input: seq<Byte>, n: nat, view: map<Node, nat>, matches: set<Match>)
    requires n <= |input| && Midway(g, f, cfg, input, n, view, matches)
    ensures forall k :: k in view && k.helper ==> k.level > 0
    ensures forall m :: m in matches ==> ApproxMatch(g, f, cfg, input, m)
  {
  }

  /** Step over the input and collect what the active states raise, until none is left or the input ends. */
  method Search(g: Graph, f: Fuzz, cfg: Config, input: seq<Byte>) returns (matches: set<Match>)
    requires g.Valid()
    ensures Collected(g, f, cfg, input, matches)
  {
    hide Midway, ApproxMatch, RaisedAt, StepsTo, Raw, FoundBelow;
    matches := {};
    var states := InitialStates(g, f);
    var next := new StateSet(g.size, f.dist);
    MidwayStart(g, f, cfg, input, states.view);
    var i := 0;
    while i < |input|
      invariant 0 <= i <= |input|
      invariant states.Valid() && next.Valid() && states != next && states.dist == next.dist == f.dist
      invariant fresh(states) && fresh(next)
      invariant Midway(g, f, cfg, input, i, states.view, matches)
    {
      MidwayFacts(g, f, cfg, input, i, states.view, matches);
      Step(g, f, Prev(input, i), input[i], i, states, next);
      var found := GetMatches(g, f, cfg, input, i, states);
      MidwayStep(g, f, cfg, input, i, states.view, next.view, matches, found);
      matches := matches + found;
      i := i + 1;
      var empty := next.IsEmpty();
      if empty {
        MidwayFacts(g, f, cfg, input, i, next.view, matches);
        MidwayDead(g, f, cfg, input, i, matches);
        return;
      }
      states.CopyFrom(next);
    }
    MidwayFacts(g, f, cfg, input, i, states.view, matches);
    var found := GetMatches(g, f, cfg, input, |input|, states);
    MidwayEnd(g, f, cfg, input, states.view, matches, found);
    matches := matches + found;
  }

  /** What filtering the raw matches leaves. */
  lemma FilteredExactly(g: Graph, f: Fuzz, cfg: Config, input: seq<Byte>, raw: set<Match>)
    requires Collected(g, f, cfg, input, raw)
    ensures forall m :: m in Filtered(raw) ==> ApproxMatch(g, f, cfg, input, m)
    ensures |input| <= CAP + 1 ==> forall m :: m in Filtered(raw) <==> LeftmostRun(g, f, cfg, input, m)
    ensures |input| <= CAP + 1 && Fuzzable(g) && !cfg.utf8 ==>
              forall m :: m in Filtered(raw) <==> LeftmostSpelling(g, f, !f.hamming || Loopless(g), cfg, input, m)
    ensures f == EXACT && |input| <= CAP + 1 ==> forall m :: m in Filtered(raw) <==> LeftmostMatch(g, cfg, input, m)
  {
    hide ApproxMatch, Raw, LeftmostMatch, LeftmostRun, FoundBelow, RunMatch, LeftmostSpelling, Fuzzable, Loopless;
    if |input| <= CAP + 1 {
      forall x | x in raw
        ensures RunMatch(g, f, cfg, input, x)
      {
        ApproxIsRun(g, f, cfg, input, x);
      }
      forall m
        ensures m in Filtered(raw) <==> LeftmostRun(g, f, cfg, input, m)
      {
        FilteredIsLeftmostRun(g, f, cfg, input, raw, m);
      }
      if Fuzzable(g) && !cfg.utf8 {
        forall m
          ensures LeftmostRun(g, f, cfg, input, m) <==> LeftmostSpelling(g, f, !f.hamming || Loopless(g), cfg, input, m)
        {
          LeftmostRunIsSpelling(g, f, cfg, input, m);
          if !f.hamming || Loopless(g) {
            SameLeftmost(g, f, cfg, input, m);
          }
        }
      }
    }
    if f == EXACT && |input| <= CAP + 1 {
      forall m ensures m in Filtered(raw) <==> LeftmostMatch(g, cfg, input, m) {
        FilteredIsLeftmost(g, cfg, input, raw, m);
      }
    }
  }

  /** What is promised of the matches found within a distance: every one has an alignment; those of inputs below 2^32
      bytes are exactly the leftmost runs, the leftmost spellings on the graphs approximate matching is offered for, and
      the leftmost walks when there is no distance. */
  ghost predicate Answers(g: Graph, f: Fuzz, cfg: Config, input: seq<Byte>, matches: set<Match>) {
    && (forall m :: m in matches ==> ApproxMatch(g, f, cfg, input, m))
    && (|input| <= 0x1_0000_0000 ==>
          && (forall m :: m in matches <==> LeftmostRun(g, f, cfg, input, m))
          && (Fuzzable(g) && !cfg.utf8 ==>
                forall m :: m in matches <==> LeftmostSpelling(g, f, !f.hamming || Loopless(g), cfg, input, m))
          && (f == Fuzz(false, 0) ==> forall m :: m in matches <==> LeftmostMatch(g, cfg, input, m)))
  }

  /** All matches of the graph against the input, or false when there are too many states. */
  method FindMatches(g: Graph, cfg: Config, input: seq<Byte>, editDistance: nat, hammDistance: nat)
    returns (ok: bool, matches: set<Match>)
    requires g.Valid()
    requires (editDistance == 0 || !cfg.utf8) && (editDistance == 0 || hammDistance == 0)
    ensures hammDistance == 0 ==>
              && (ok <==> g.size * (3 * editDistance + 1) <= 15000)
              && (ok ==> Answers(g, Fuzz(false, editDistance), cfg, input, matches))
    ensures hammDistance > 0 ==>
              && (ok <==> g.size * (3 * hammDistance + 1) <= 15000)
              && (ok ==> Answers(g, Fuzz(true, hammDistance), cfg, input, matches))
  {
    hide Collected, LeftmostMatch, LeftmostRun, LeftmostSpelling, ApproxMatch, Fuzzable, Loopless, Filtered;
    var hamming := hammDistance > 0;
    var f := Fuzz(hamming, if hamming then hammDistance else editDistance);
    if g.size * (3 * f.dist + 1) > STATE_COUNT_MAX {
      return false, {};
    }
    var raw := Search(g, f, cfg, input);
    matches := FilterMatches(raw);
    ok := true;
    FilteredExactly(g, f, cfg, input, raw);
  }
}
