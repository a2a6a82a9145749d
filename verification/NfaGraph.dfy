/** The automaton graph of the reference matcher, and its per-vertex transition sets. */
module NfaGraph {
  import AssertFlags
  import opened Common

  type Vertex = int

  datatype Edge = Edge(u: Vertex, v: Vertex)

  /** Vertices are 0..size; edges carry assertion flags. */
  datatype Graph = Graph(size: nat, edges: map<Edge, AssertFlags.Flags>, reach: map<Vertex, set<Byte>>,
                         reports: map<Vertex, set<nat>>, virtualStarts: set<Vertex>,
                         start: Vertex, startDs: Vertex, accept: Vertex, acceptEod: Vertex)
  {
    predicate HasEdge(u: Vertex, v: Vertex) { Edge(u, v) in edges }

    predicate IsAnyAccept(v: Vertex) { v == accept || v == acceptEod }

    predicate IsAnyStart(v: Vertex) { v == start || v == startDs }

    predicate IsSpecial(v: Vertex) { IsAnyStart(v) || IsAnyAccept(v) }

    /** Bytes on which v can be entered. */
    predicate Accepts(v: Vertex, c: Byte) { v in reach && c in reach[v] }

    function ReportsOf(v: Vertex): set<nat> { if v in reports then reports[v] else {} }

    ghost predicate Valid() {
      && (forall e :: e in edges ==> 0 <= e.u < size && 0 <= e.v < size)
      && 0 <= start < size && 0 <= startDs < size && 0 <= accept < size && 0 <= acceptEod < size
      && start != startDs && !IsAnyAccept(start) && !IsAnyAccept(startDs) && accept != acceptEod
    }

    /** startDs has a successor other than itself. */
    predicate AllowsStartDs() { exists e :: e in edges && e.u == startDs && e.v != startDs }
  }

  predicate IsWordChar(c: Byte) { IsAlpha(c) || 0x30 <= c <= 0x39 || c == 0x5f }

  /** Letters, digits and the underscore. */
  lemma WordChars(c: Byte)
    ensures IsWordChar(c) <==> 0x30 <= c <= 0x39 || 0x41 <= c <= 0x5a || c == 0x5f || 0x61 <= c <= 0x7a
  {
  }

  /** The byte starts a UTF-8 sequence. */
  predicate IsUtf8CodePoint(c: Byte) { c < 0x80 || 0xC0 <= c < 0xF8 }

  /** The leading bytes of one to four byte sequences, by their high bits. */
  lemma Utf8Leads(c: bv8)
    ensures IsUtf8CodePoint(c as int) <==> c & 0xF8 == 0xF0 || c & 0xF0 == 0xE0 || c & 0xE0 == 0xC0 || c & 0x80 == 0
  {
  }

  /** The flags of an edge let the pair of neighbouring bytes through. */
  predicate CanReach(flags: AssertFlags.Flags, prev: Byte, cur: Byte) {
    || flags == 0
    || (flags & AssertFlags.WORD_TO_NONWORD != 0 && IsWordChar(prev) && !IsWordChar(cur))
    || (flags & AssertFlags.NONWORD_TO_WORD != 0 && !IsWordChar(prev) && IsWordChar(cur))
    || (flags & AssertFlags.WORD_TO_WORD != 0 && IsWordChar(prev) && IsWordChar(cur))
    || (flags & AssertFlags.NONWORD_TO_NONWORD != 0 && !IsWordChar(prev) && !IsWordChar(cur))
  }

  /** The matcher reads edge flags the way the assert-elimination pass means them. */
  lemma CanReachIsPassable(flags: AssertFlags.Flags, prev: Byte, cur: Byte)
    ensures CanReach(flags, prev, cur) <==>
            AssertFlags.Passable(flags, AssertFlags.Context(false, IsWordChar(prev), IsWordChar(cur)))
  {
  }

  /** Vertices d+1 proper edges away; special vertices are not passed through. */
  function SuccessorsByDepth(g: Graph, src: Vertex, d: nat): set<Vertex> {
    if d == 0 then set e | e in g.edges && e.u == src && e.v != src :: e.v
    else
      var cur := SuccessorsByDepth(g, src, d - 1);
      set e | e in g.edges && e.u in cur && !g.IsSpecial(e.u) && e.v != e.u :: e.v
  }

  function PredecessorsByDepth(g: Graph, src: Vertex, d: nat): set<Vertex> {
    if d == 0 then set e | e in g.edges && e.v == src && e.u != src :: e.u
    else
      var cur := PredecessorsByDepth(g, src, d - 1);
      set e | e in g.edges && e.v in cur && e.u != e.v :: e.u
  }

  predicate CanTransitionToHelper(g: Graph, u: Vertex, v: Vertex) {
    !g.IsAnyAccept(u) && !g.IsAnyAccept(v) && !(u == g.start && v == g.startDs) && v !in g.virtualStarts
  }

  /** Approximate matching: how many edits, and of which kind. */
  datatype Fuzz = Fuzz(hamming: bool, dist: nat)

  /** Entered by reading a byte the target accepts, after skipping d vertices. */
  function ShadowTransitions(g: Graph, f: Fuzz, i: Vertex, d: nat): set<Vertex> {
    (if g.HasEdge(i, i) && d == 0 then {i} else {}) +
    (if f.hamming && d > 0 then {}
     else set v | v in SuccessorsByDepth(g, i, d) && (v != g.startDs || d == 0))
  }

  /** Entered by reading any byte: d edits in all. */
  function HelperTransitions(g: Graph, f: Fuzz, i: Vertex, d: nat): set<Vertex> {
    if d == 0 then {}
    else
      (if !f.hamming && !g.IsAnyAccept(i) then {i} else {}) +
      (if f.hamming && d > 1 then {}
       else set v | v in SuccessorsByDepth(g, i, d - 1) && CanTransitionToHelper(g, i, v))
  }

  /** Vertices that can go on to the accept vertex within the edits left at a level. */
  function AcceptStates(g: Graph, f: Fuzz, level: nat, accept: Vertex): set<Vertex>
    requires level <= f.dist
  {
    var left := f.dist - level;
    set i | 0 <= i < g.size && AcceptsWithin(g, f, i, left, accept)
  }

  predicate AcceptsWithin(g: Graph, f: Fuzz, i: Vertex, left: nat, accept: Vertex) {
    exists d :: 0 <= d <= left && accept in ShadowTransitions(g, f, i, d)
  }

  /** Reports that a vertex raises at a level: its own, and those of vertices it reaches by skipping. */
  function ReportsByLevel(g: Graph, f: Fuzz, level: nat, u: Vertex, accept: Vertex): set<nat> {
    set v, r | 0 <= v < g.size && g.HasEdge(v, accept) && !(accept == g.acceptEod && v == g.accept) && r in g.ReportsOf(v) &&
               (u == v || (!f.hamming && exists pd :: 0 <= pd < f.dist - level && u in PredecessorsByDepth(g, v, pd))) :: r
  }
}
