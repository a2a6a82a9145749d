/** What eliminating assert vertices means: flagged adjacency before and after,
    and walks through zero-width vertices. */
module AssertElimination {
  import opened AssertFlags

  type Vertex = int

  datatype Arc = Arc(u: Vertex, v: Vertex)

  type Adjacency = map<Arc, Flags>

  /** Vertex flags and the end-of-data accept vertex; the pass never changes them. */
  datatype Labels = Labels(flags: map<Vertex, Flags>, acceptEod: Vertex)
  {
    function Of(v: Vertex): Flags {
      if v in flags then flags[v] else OPEN_EDGE
    }

    predicate IsAssert(v: Vertex) {
      Of(v) & WORDBOUNDARY_FLAGS != 0
    }

    /** The flags name a word class on either side: a word-boundary assertion of some family. */
    ghost predicate Marked(v: Vertex) {
      exists c: Context :: Of(v) & Bit(c) != 0
    }

    /** (?m)^ does not match a newline at end of data. */
    predicate Barred(u: Vertex, v: Vertex) {
      Of(u) & MULTILINE_START != 0 && v == acceptEod
    }
  }

  /** One flag family per graph, and word-boundary bits only on assert vertices. */
  ghost predicate WellFlagged(l: Labels, adj: Adjacency, ucp: bool) {
    && (forall v :: l.IsAssert(v) ==> InFamily(l.Of(v), ucp))
    && (forall e :: e in adj ==> InFamily(adj[e], ucp))
    && !l.IsAssert(l.acceptEod)
  }

  /** No assert vertex cuts the mask of another assert vertex or of an edge in two. */
  ghost predicate MasksCompatible(l: Labels, adj: Adjacency) {
    && (forall s, t :: l.IsAssert(s) && l.IsAssert(t) ==> Compatible(l.Of(s), l.Of(t)))
    && (forall e, t :: e in adj && l.IsAssert(t) ==> Compatible(adj[e], l.Of(t)))
  }

  /** The path (u, t, v) is turned into a direct edge. */
  predicate Bridges(l: Labels, adj: Adjacency, t: Vertex, u: Vertex, v: Vertex) {
    && u != t && v != t
    && Arc(u, t) in adj && Arc(t, v) in adj
    && PathFlags(adj[Arc(u, t)], l.Of(t), adj[Arc(t, v)]) != DEAD_EDGE
    && !l.Barred(u, v)
  }

  /** The mask that the edge Arc(u, v) carries once its path through t has been bridged. */
  function BridgedFlags(l: Labels, adj: Adjacency, t: Vertex, u: Vertex, v: Vertex): Flags
    requires Bridges(l, adj, t, u, v)
  {
    if Arc(u, v) in adj then
      Disjunct(adj[Arc(u, v)], PathFlags(adj[Arc(u, t)], l.Of(t), adj[Arc(t, v)]))
    else
      l.Of(t)
  }

  predicate Joined(l: Labels, adj: Adjacency, t: Vertex, u: Vertex, v: Vertex) {
    u != t && v != t && (Arc(u, v) in adj || Bridges(l, adj, t, u, v))
  }

  function JoinedFlags(l: Labels, adj: Adjacency, t: Vertex, u: Vertex, v: Vertex): Flags
    requires Joined(l, adj, t, u, v)
  {
    if Bridges(l, adj, t, u, v) then BridgedFlags(l, adj, t, u, v) else adj[Arc(u, v)]
  }

  /** `after` is `adj` with the assert vertex t replaced by direct edges. */
  ghost predicate Eliminated(l: Labels, adj: Adjacency, t: Vertex, after: Adjacency) {
    forall u, v ::
      && (Arc(u, v) in after <==> Joined(l, adj, t, u, v))
      && (Arc(u, v) in after ==> after[Arc(u, v)] == JoinedFlags(l, adj, t, u, v))
  }

  /** Every pair that could possibly be joined. */
  function Pairs(adj: Adjacency): set<Arc> {
    set d, e | d in adj.Keys && e in adj.Keys :: Arc(d.u, e.v)
  }

  lemma PairsSuffice(l: Labels, adj: Adjacency, t: Vertex, u: Vertex, v: Vertex)
    ensures Joined(l, adj, t, u, v) ==> Arc(u, v) in Pairs(adj)
  {
    if Arc(u, v) in adj {
      var d := Arc(u, v);
      assert d in adj.Keys && Arc(d.u, d.v) == Arc(u, v);
    } else if Arc(u, t) in adj && Arc(t, v) in adj {
      var d, e := Arc(u, t), Arc(t, v);
      assert d in adj.Keys && e in adj.Keys && Arc(d.u, e.v) == Arc(u, v);
    }
  }

  function Eliminate(l: Labels, adj: Adjacency, t: Vertex): (after: Adjacency)
    ensures Eliminated(l, adj, t, after)
  {
    assert forall u, v :: Joined(l, adj, t, u, v) ==> Arc(u, v) in Pairs(adj) by {
      forall u, v ensures Joined(l, adj, t, u, v) ==> Arc(u, v) in Pairs(adj) {
        PairsSuffice(l, adj, t, u, v);
      }
    }
    map e | e in Pairs(adj) && Joined(l, adj, t, e.u, e.v) :: JoinedFlags(l, adj, t, e.u, e.v)
  }

  /** The pass: the vertices of `ts` eliminated one after the other. */
  function EliminateAll(l: Labels, adj: Adjacency, ts: seq<Vertex>): Adjacency
    decreases |ts|
  {
    if ts == [] then adj else Eliminate(l, EliminateAll(l, adj, ts[..|ts| - 1]), ts[|ts| - 1])
  }

  ghost predicate EdgeOpen(adj: Adjacency, c: Context, u: Vertex, v: Vertex) {
    Arc(u, v) in adj && Passable(adj[Arc(u, v)], c)
  }

  /** A walk u -> p[0] -> ... -> v whose interior lies in `via`, every edge and every
      interior vertex letting the context through. */
  ghost predicate Walk(l: Labels, adj: Adjacency, c: Context, via: set<Vertex>, u: Vertex, p: seq<Vertex>, v: Vertex)
    decreases |p|
  {
    if p == [] then EdgeOpen(adj, c, u, v)
    else
      && p[0] in via
      && EdgeOpen(adj, c, u, p[0])
      && Passable(l.Of(p[0]), c)
      && Walk(l, adj, c, via, p[0], p[1..], v)
  }

  /** v can follow u with no byte consumed in between; barred pairs only by a direct edge. */
  ghost predicate Follows(l: Labels, adj: Adjacency, c: Context, via: set<Vertex>, u: Vertex, v: Vertex) {
    exists p :: Walk(l, adj, c, via, u, p, v) && (p == [] || l.Of(u) & 0x0100 == 0 || v != l.acceptEod)
  }

  lemma BarredIs(l: Labels, u: Vertex, v: Vertex)
    ensures l.Barred(u, v) <==> !(l.Of(u) & 0x0100 == 0 || v != l.acceptEod)
  {
  }

  lemma {:induction false} WalkMonotone(l: Labels, adj: Adjacency, c: Context, small: set<Vertex>, big: set<Vertex>,
                                        u: Vertex, p: seq<Vertex>, v: Vertex)
    requires small <= big
    requires Walk(l, adj, c, small, u, p, v)
    ensures Walk(l, adj, c, big, u, p, v)
    decreases |p|
  {
    if p != [] {
      WalkMonotone(l, adj, c, small, big, p[0], p[1..], v);
    }
  }

  lemma {:induction false} WalkJoin(l: Labels, adj: Adjacency, c: Context, via: set<Vertex>,
                                    u: Vertex, p: seq<Vertex>, t: Vertex, q: seq<Vertex>, v: Vertex)
    requires t in via && Passable(l.Of(t), c)
    requires Walk(l, adj, c, via, u, p, t) && Walk(l, adj, c, via, t, q, v)
    ensures Walk(l, adj, c, via, u, p + [t] + q, v)
    decreases |p|
  {
    var r := p + [t] + q;
    if p == [] {
      assert r[0] == t && r[1..] == q;
    } else {
      WalkJoin(l, adj, c, via, p[0], p[1..], t, q, v);
      assert r[0] == p[0] && r[1..] == p[1..] + [t] + q;
    }
  }

  /** Cutting a walk at its visits of t: either it avoids t, or it has a t-free way into t
      and a t-free way out of t. */
  lemma {:induction false} WalkCut(l: Labels, adj: Adjacency, c: Context, via: set<Vertex>, t: Vertex,
                                   u: Vertex, p: seq<Vertex>, v: Vertex) returns (q: seq<Vertex>, r: seq<Vertex>)
    requires Walk(l, adj, c, via + {t}, u, p, v)
    ensures t !in p ==> Walk(l, adj, c, via, u, p, v)
    ensures t in p ==> Passable(l.Of(t), c) && Walk(l, adj, c, via, u, q, t) && Walk(l, adj, c, via, t, r, v)
    decreases |p|
  {
    q, r := [], [];
    if p != [] {
      assert p == [p[0]] + p[1..];
      var q', r' := WalkCut(l, adj, c, via, t, p[0], p[1..], v);
      if p[0] == t {
        r := if t in p[1..] then r' else p[1..];
      } else if t in p[1..] {
        q, r := [p[0]] + q', r';
        assert q[1..] == q';
      }
    }
  }

  /** `after` offers at least the zero-width successions of `adj` through `done`. */
  ghost predicate Covers(l: Labels, adj: Adjacency, done: set<Vertex>, after: Adjacency, ucp: bool) {
    forall u, v, c: Context | u !in done && v !in done && c.ucp == ucp ::
      Follows(l, adj, c, done, u, v) ==> EdgeOpen(after, c, u, v)
  }

  /** `after` offers at most the zero-width successions of `adj` through `done`. */
  ghost predicate Sound(l: Labels, adj: Adjacency, done: set<Vertex>, after: Adjacency, ucp: bool) {
    forall u, v, c: Context | u !in done && v !in done && c.ucp == ucp ::
      EdgeOpen(after, c, u, v) ==> Follows(l, adj, c, done, u, v)
  }

  lemma FamilyFacts(l: Labels, t: Vertex, ucp: bool)
    requires l.IsAssert(t) && InFamily(l.Of(t), ucp)
    ensures l.Of(t) & MULTILINE_START == 0 && l.Of(t) != OPEN_EDGE
  {
    assert Family(ucp) & MULTILINE_START == 0;
  }

  /** Elimination keeps every mask inside the family. */
  lemma EliminatedWellFlagged(l: Labels, adj: Adjacency, t: Vertex, after: Adjacency, ucp: bool)
    requires WellFlagged(l, adj, ucp) && l.IsAssert(t) && Eliminated(l, adj, t, after)
    ensures WellFlagged(l, after, ucp)
  {
    forall e | e in after ensures InFamily(after[e], ucp) {
      var Arc(u, v) := e;
      assert Arc(u, v) in after;
      if Bridges(l, adj, t, u, v) {
        var c := Context(ucp, false, false);
        PathMeaning(adj[Arc(u, t)], l.Of(t), adj[Arc(t, v)], c);
        if Arc(u, v) in adj {
          DisjunctMeaning(adj[Arc(u, v)], PathFlags(adj[Arc(u, t)], l.Of(t), adj[Arc(t, v)]), c);
        }
      }
    }
  }

  lemma EliminatedCompatible(l: Labels, adj: Adjacency, t: Vertex, after: Adjacency, ucp: bool)
    requires WellFlagged(l, adj, ucp) && MasksCompatible(l, adj) && l.IsAssert(t) && Eliminated(l, adj, t, after)
    ensures MasksCompatible(l, after)
  {
    FamilyFacts(l, t, ucp);
    forall e, s | e in after && l.IsAssert(s) ensures Compatible(after[e], l.Of(s)) {
      var Arc(u, v) := e;
      assert Arc(u, v) in after;
      if Bridges(l, adj, t, u, v) {
        PathFlagsIsVertexMask(adj[Arc(u, t)], l.Of(t), adj[Arc(t, v)]);
        if Arc(u, v) in adj {
          DisjunctCompatible(adj[Arc(u, v)], l.Of(t), l.Of(s));
        }
      }
    }
  }

  /** One elimination, seen from one pair: the edge is open afterwards if it was open before
      or if the path through t was; and only then when masks are compatible. */
  lemma EliminatedEdge(l: Labels, adj: Adjacency, t: Vertex, after: Adjacency, c: Context, u: Vertex, v: Vertex)
    requires WellFlagged(l, adj, c.ucp) && l.IsAssert(t) && Eliminated(l, adj, t, after)
    requires u != t && v != t
    ensures var through := EdgeOpen(adj, c, u, t) && Passable(l.Of(t), c) && EdgeOpen(adj, c, t, v) && !l.Barred(u, v);
            && (EdgeOpen(adj, c, u, v) || through ==> EdgeOpen(after, c, u, v))
            && (MasksCompatible(l, adj) && EdgeOpen(after, c, u, v) ==> EdgeOpen(adj, c, u, v) || through)
  {
    if Arc(u, t) in adj && Arc(t, v) in adj {
      var i, m, o := adj[Arc(u, t)], l.Of(t), adj[Arc(t, v)];
      PathMeaning(i, m, o, c);
      if Bridges(l, adj, t, u, v) {
        FamilyFacts(l, t, c.ucp);
        VertexMaskCoversPath(i, m, o, c);
        if MasksCompatible(l, adj) {
          PathFlagsIsVertexMask(i, m, o);
        }
        if Arc(u, v) in adj {
          DisjunctMeaning(adj[Arc(u, v)], PathFlags(i, m, o), c);
        }
      }
    }
  }

  /** Walks through done + {t} in terms of walks through done. */
  lemma FollowsStep(l: Labels, adj: Adjacency, c: Context, done: set<Vertex>, t: Vertex, u: Vertex, v: Vertex)
    requires WellFlagged(l, adj, c.ucp) && l.IsAssert(t)
    ensures Follows(l, adj, c, done + {t}, u, v) <==>
            || Follows(l, adj, c, done, u, v)
            || (Follows(l, adj, c, done, u, t) && Passable(l.Of(t), c) && Follows(l, adj, c, done, t, v) && !l.Barred(u, v))
  {
    BarredIs(l, u, v);
    BarredIs(l, u, t);
    BarredIs(l, t, v);
    FamilyFacts(l, t, c.ucp);
    assert !l.Barred(u, t) && !l.Barred(t, v);
    if Follows(l, adj, c, done + {t}, u, v) {
      var p :| Walk(l, adj, c, done + {t}, u, p, v) && (p == [] || l.Of(u) & 0x0100 == 0 || v != l.acceptEod);
      var q, r := WalkCut(l, adj, c, done, t, u, p, v);
    }
    if Follows(l, adj, c, done, u, v) {
      var p :| Walk(l, adj, c, done, u, p, v) && (p == [] || l.Of(u) & 0x0100 == 0 || v != l.acceptEod);
      WalkMonotone(l, adj, c, done, done + {t}, u, p, v);
    }
    if Follows(l, adj, c, done, u, t) && Passable(l.Of(t), c) && Follows(l, adj, c, done, t, v) && !l.Barred(u, v) {
      var p :| Walk(l, adj, c, done, u, p, t);
      var q :| Walk(l, adj, c, done, t, q, v);
      WalkMonotone(l, adj, c, done, done + {t}, u, p, t);
      WalkMonotone(l, adj, c, done, done + {t}, t, q, v);
      WalkJoin(l, adj, c, done + {t}, u, p, t, q, v);
    }
  }

  function SetOf(ts: seq<Vertex>): set<Vertex> { set t | t in ts }

  lemma CoversStep(l: Labels, adj: Adjacency, done: set<Vertex>, mid: Adjacency, t: Vertex, after: Adjacency, ucp: bool)
    requires WellFlagged(l, adj, ucp) && WellFlagged(l, mid, ucp) && l.IsAssert(t)
    requires Covers(l, adj, done, mid, ucp) && Eliminated(l, mid, t, after) && t !in done
    ensures Covers(l, adj, done + {t}, after, ucp)
  {
    forall u, v, c: Context | u !in done + {t} && v !in done + {t} && c.ucp == ucp && Follows(l, adj, c, done + {t}, u, v)
      ensures EdgeOpen(after, c, u, v)
    {
      FollowsStep(l, adj, c, done, t, u, v);
      EliminatedEdge(l, mid, t, after, c, u, v);
    }
  }

  lemma SoundStep(l: Labels, adj: Adjacency, done: set<Vertex>, mid: Adjacency, t: Vertex, after: Adjacency, ucp: bool)
    requires WellFlagged(l, adj, ucp) && WellFlagged(l, mid, ucp) && MasksCompatible(l, mid) && l.IsAssert(t)
    requires Sound(l, adj, done, mid, ucp) && Eliminated(l, mid, t, after) && t !in done
    ensures Sound(l, adj, done + {t}, after, ucp)
  {
    forall u, v, c: Context | u !in done + {t} && v !in done + {t} && c.ucp == ucp && EdgeOpen(after, c, u, v)
      ensures Follows(l, adj, c, done + {t}, u, v)
    {
      EliminatedEdge(l, mid, t, after, c, u, v);
      FollowsStep(l, adj, c, done, t, u, v);
    }
  }

  ghost predicate Distinct(ts: seq<Vertex>) {
    forall i, j :: 0 <= i < j < |ts| ==> ts[i] != ts[j]
  }

  /** The whole pass, for any masks: no zero-width succession of the original graph is lost. */
  lemma {:induction false} EliminationCovers(l: Labels, adj: Adjacency, ts: seq<Vertex>, ucp: bool)
    requires WellFlagged(l, adj, ucp) && Distinct(ts) && (forall t :: t in ts ==> l.IsAssert(t))
    ensures WellFlagged(l, EliminateAll(l, adj, ts), ucp)
    ensures Covers(l, adj, SetOf(ts), EliminateAll(l, adj, ts), ucp)
    decreases |ts|
  {
    if ts != [] {
      var init, t := ts[..|ts| - 1], ts[|ts| - 1];
      var mid, after := EliminateAll(l, adj, init), EliminateAll(l, adj, ts);
      EliminationCovers(l, adj, init, ucp);
      EliminatedWellFlagged(l, mid, t, after, ucp);
      CoversStep(l, adj, SetOf(init), mid, t, after, ucp);
      assert SetOf(ts) == SetOf(init) + {t};
    }
  }

  /** The whole pass, with compatible masks: no zero-width succession is invented either, although
      new edges carry the vertex's mask and not the composed one. */
  lemma {:induction false} EliminationSound(l: Labels, adj: Adjacency, ts: seq<Vertex>, ucp: bool)
    requires WellFlagged(l, adj, ucp) && MasksCompatible(l, adj)
    requires Distinct(ts) && (forall t :: t in ts ==> l.IsAssert(t))
    ensures MasksCompatible(l, EliminateAll(l, adj, ts))
    ensures Sound(l, adj, SetOf(ts), EliminateAll(l, adj, ts), ucp)
    decreases |ts|
  {
    if ts == [] {
      var none := SetOf(ts);
      forall u, v, c: Context | EdgeOpen(adj, c, u, v) ensures Follows(l, adj, c, none, u, v) {
        assert Walk(l, adj, c, none, u, [], v);
      }
    } else {
      var init, t := ts[..|ts| - 1], ts[|ts| - 1];
      var mid, after := EliminateAll(l, adj, init), EliminateAll(l, adj, ts);
      EliminationSound(l, adj, init, ucp);
      EliminationCovers(l, adj, init, ucp);
      EliminatedCompatible(l, mid, t, after, ucp);
      SoundStep(l, adj, SetOf(init), mid, t, after, ucp);
      assert SetOf(ts) == SetOf(init) + {t};
    }
  }

  /** The pass looks for the bits of every context, and for no others. */
  lemma MarkedIsAssert(l: Labels, v: Vertex)
    ensures l.Marked(v) <==> l.IsAssert(v)
  {
    MarkedBits(l.Of(v));
  }

  lemma MarkedBits(f: Flags)
    ensures (exists c: Context :: f & Bit(c) != 0) <==> f & WORDBOUNDARY_FLAGS != 0
  {
    if c: Context :| f & Bit(c) != 0 {
      ContextBitIn(f, c);
    } else {
      forall ucp, prev, cur
        ensures f & Bit(Context(ucp, prev, cur)) == 0
      {
      }
      NoContextBit(f);
    }
  }

  lemma ContextBitIn(f: Flags, c: Context)
    requires f & Bit(c) != 0
    ensures f & WORDBOUNDARY_FLAGS != 0
  {
  }

  lemma NoContextBit(f: Flags)
    requires forall ucp, prev, cur :: f & Bit(Context(ucp, prev, cur)) == 0
    ensures f & WORDBOUNDARY_FLAGS == 0
  {
    assert f & Bit(Context(false, false, false)) == 0 && f & Bit(Context(false, false, true)) == 0;
    assert f & Bit(Context(false, true, false)) == 0 && f & Bit(Context(false, true, true)) == 0;
    assert f & Bit(Context(true, false, false)) == 0 && f & Bit(Context(true, false, true)) == 0;
    assert f & Bit(Context(true, true, false)) == 0 && f & Bit(Context(true, true, true)) == 0;
  }

  /** Meaning is preserved: between ordinary vertices, an edge lets a context through exactly when
      the original graph had a walk through assert vertices that lets it through. */
  lemma EliminationExact(l: Labels, adj: Adjacency, ts: seq<Vertex>, c: Context, u: Vertex, v: Vertex)
    requires WellFlagged(l, adj, c.ucp) && MasksCompatible(l, adj)
    requires Distinct(ts) && (forall t :: t in ts <==> l.Marked(t))
    requires !l.Marked(u) && !l.Marked(v)
    ensures EdgeOpen(EliminateAll(l, adj, ts), c, u, v) <==> Follows(l, adj, c, SetOf(ts), u, v)
  {
    forall t
      ensures l.Marked(t) <==> l.IsAssert(t)
    {
      MarkedIsAssert(l, t);
    }
    EliminationCovers(l, adj, ts, c.ucp);
    EliminationSound(l, adj, ts, c.ucp);
  }

  /** Nothing is left at the vertices that were removed. */
  lemma {:induction false} EliminationClears(l: Labels, adj: Adjacency, ts: seq<Vertex>, e: Arc)
    requires e in EliminateAll(l, adj, ts)
    ensures e.u !in ts && e.v !in ts
    decreases |ts|
  {
    hide Bridges, JoinedFlags;
    if ts != [] {
      var init, t := ts[..|ts| - 1], ts[|ts| - 1];
      var mid := EliminateAll(l, adj, init);
      assert e == Arc(e.u, e.v) && Joined(l, mid, t, e.u, e.v);
      if e in mid {
        EliminationClears(l, adj, init, e);
      } else {
        BridgeEnds(l, mid, t, e.u, e.v);
        EliminationClears(l, adj, init, Arc(e.u, t));
        EliminationClears(l, adj, init, Arc(t, e.v));
      }
    }
  }

  lemma BridgeEnds(l: Labels, adj: Adjacency, t: Vertex, u: Vertex, v: Vertex)
    requires Bridges(l, adj, t, u, v)
    ensures Arc(u, t) in adj && Arc(t, v) in adj
  {
  }

  /** The mask the parser gives to \\b, or to \\B. */
  function Boundary(ucp: bool, negated: bool): Flags {
    if ucp then (if negated then WORD_TO_WORD_UCP | NONWORD_TO_NONWORD_UCP else WORD_TO_NONWORD_UCP | NONWORD_TO_WORD_UCP)
    else (if negated then WORD_TO_WORD | NONWORD_TO_NONWORD else WORD_TO_NONWORD | NONWORD_TO_WORD)
  }

  ghost predicate IsBoundary(l: Labels, v: Vertex, ucp: bool) {
    l.Of(v) == Boundary(ucp, false) || l.Of(v) == Boundary(ucp, true)
  }

  /** A graph as parsing leaves it: assert vertices are \\b or \\B, and no edge carries a mask. */
  ghost predicate Parsed(l: Labels, adj: Adjacency, ucp: bool) {
    && (forall v :: l.Marked(v) ==> IsBoundary(l, v, ucp))
    && (forall e :: e in adj ==> adj[e] == OPEN_EDGE) && !l.Marked(l.acceptEod)
  }

  /** On graphs that come from an expression the pass is exact. */
  lemma ParsedExact(l: Labels, adj: Adjacency, ts: seq<Vertex>, c: Context, u: Vertex, v: Vertex)
    requires Parsed(l, adj, c.ucp) && Distinct(ts) && (forall t :: t in ts <==> IsBoundary(l, t, c.ucp))
    requires !IsBoundary(l, u, c.ucp) && !IsBoundary(l, v, c.ucp)
    ensures WellFlagged(l, adj, c.ucp) && MasksCompatible(l, adj)
    ensures EdgeOpen(EliminateAll(l, adj, ts), c, u, v) <==> Follows(l, adj, c, SetOf(ts), u, v)
  {
    hide EdgeOpen, Follows, EliminateAll, Labels.Marked;
    forall t
      ensures (l.Marked(t) <==> l.IsAssert(t)) && (l.Marked(t) <==> IsBoundary(l, t, c.ucp))
    {
      MarkedIsAssert(l, t);
      if IsBoundary(l, t, c.ucp) {
        BoundaryMarks(l, t, c.ucp);
      }
    }
    ParsedMasks(l, adj, c.ucp);
    EliminationExact(l, adj, ts, c, u, v);
  }

  lemma BoundaryMarks(l: Labels, v: Vertex, ucp: bool)
    requires IsBoundary(l, v, ucp)
    ensures l.Marked(v)
  {
    assert l.Of(v) & Bit(Context(ucp, true, false)) != 0 || l.Of(v) & Bit(Context(ucp, true, true)) != 0;
  }

  lemma ParsedMasks(l: Labels, adj: Adjacency, ucp: bool)
    requires forall t :: l.IsAssert(t) ==> IsBoundary(l, t, ucp)
    requires (forall e :: e in adj ==> adj[e] == OPEN_EDGE) && !l.IsAssert(l.acceptEod)
    ensures WellFlagged(l, adj, ucp) && MasksCompatible(l, adj)
  {
  }

  /** Without compatible masks the pass can invent a succession: an in-edge of mask W->N into a
      \\b vertex yields an edge that also passes N->W. */
  lemma IncompatibleMaskInventsEdge()
    ensures var l := Labels(map[1 := WORD_TO_NONWORD | NONWORD_TO_WORD], 9);
            var adj: Adjacency := map[Arc(0, 1) := WORD_TO_NONWORD, Arc(1, 2) := OPEN_EDGE];
            var c := Context(false, false, true);
            && WellFlagged(l, adj, false)
            && EdgeOpen(EliminateAll(l, adj, [1]), c, 0, 2)
            && !Follows(l, adj, c, {1}, 0, 2)
  {
    var l := Labels(map[1 := WORD_TO_NONWORD | NONWORD_TO_WORD], 9);
    var adj: Adjacency := map[Arc(0, 1) := WORD_TO_NONWORD, Arc(1, 2) := OPEN_EDGE];
    var c := Context(false, false, true);
    assert EliminateAll(l, adj, []) == adj;
    assert [1][..0] == [];
    assert Bridges(l, adj, 1, 0, 2);
    assert forall p :: !Walk(l, adj, c, {1}, 0, p, 2);
  }
}
