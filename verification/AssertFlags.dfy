/** The flag algebra of the assert-vertex pass and the meaning of a flag word. */
module AssertFlags {

  type Flags = bv32

  const OPEN_EDGE: Flags := 0
  const DEAD_EDGE: Flags := 0xFFFF_FFFF

  const WORD_TO_NONWORD: Flags := 0x0008
  const NONWORD_TO_WORD: Flags := 0x0010
  const WORD_TO_WORD: Flags := 0x0020
  const NONWORD_TO_NONWORD: Flags := 0x0040
  const MULTILINE_START: Flags := 0x0100
  const WORD_TO_NONWORD_UCP: Flags := 0x0200
  const NONWORD_TO_WORD_UCP: Flags := 0x0400
  const WORD_TO_WORD_UCP: Flags := 0x0800
  const NONWORD_TO_NONWORD_UCP: Flags := 0x1000

  const WORDBOUNDARY_FLAGS: Flags := 0x1E78

  /** Two assertions in parallel. */
  function Disjunct(flags1: Flags, flags2: Flags): Flags {
    if flags1 == DEAD_EDGE then flags2
    else if flags2 == DEAD_EDGE then flags1
    else if flags1 == OPEN_EDGE || flags2 == OPEN_EDGE then OPEN_EDGE
    else flags1 | flags2
  }

  /** Two assertions in series. */
  function Conjunct(flags1: Flags, flags2: Flags): Flags {
    if flags1 == OPEN_EDGE then flags2
    else if flags2 == OPEN_EDGE then flags1
    else if flags1 & flags2 != 0 then flags1 & flags2
    else DEAD_EDGE
  }

  /** Word class of the byte before and of the byte after a zero-width position,
      in one of the two flag families (plain or UCP). */
  datatype Context = Context(ucp: bool, prevWord: bool, curWord: bool)

  /** The single bit that a context satisfies. */
  function Bit(c: Context): Flags {
    if c.ucp then
      if c.prevWord then (if c.curWord then WORD_TO_WORD_UCP else WORD_TO_NONWORD_UCP)
      else (if c.curWord then NONWORD_TO_WORD_UCP else NONWORD_TO_NONWORD_UCP)
    else
      if c.prevWord then (if c.curWord then WORD_TO_WORD else WORD_TO_NONWORD)
      else (if c.curWord then NONWORD_TO_WORD else NONWORD_TO_NONWORD)
  }

  /** Bits 3 to 6 are the plain contexts, bits 9 to 12 those of UCP. */
  lemma ContextBits(ucp: bool)
    ensures var shift := if ucp then 9 else 3;
            && Bit(Context(ucp, true, false)) == 1 << shift && Bit(Context(ucp, false, true)) == 2 << shift
            && Bit(Context(ucp, true, true)) == 4 << shift && Bit(Context(ucp, false, false)) == 8 << shift
  {
    if ucp {
      assert (1 as Flags) << 9 == 0x0200 && (2 as Flags) << 9 == 0x0400;
      assert (4 as Flags) << 9 == 0x0800 && (8 as Flags) << 9 == 0x1000;
    } else {
      assert (1 as Flags) << 3 == 0x0008 && (2 as Flags) << 3 == 0x0010;
      assert (4 as Flags) << 3 == 0x0020 && (8 as Flags) << 3 == 0x0040;
    }
  }

  function Family(ucp: bool): Flags {
    if ucp then 0x1E00 else 0x0078
  }

  /** A flag word lets a context through when it is open or names its bit. */
  predicate Passable(f: Flags, c: Context) {
    f == OPEN_EDGE || f & Bit(c) != 0
  }

  /** The flag word uses only word-boundary bits of one family. */
  predicate InFamily(f: Flags, ucp: bool) {
    f & !Family(ucp) == 0
  }

  /** An edge mask that an assert vertex of mask `m` cannot cut in two. */
  predicate Compatible(f: Flags, m: Flags) {
    f & m == 0 || f & m == m
  }

  /** Series composition is logical conjunction; DEAD means no context passes both. */
  lemma ConjunctMeaning(f: Flags, g: Flags, c: Context)
    requires InFamily(f, c.ucp) && InFamily(g, c.ucp)
    ensures Conjunct(f, g) == 0xFFFF_FFFF ==> !(Passable(f, c) && Passable(g, c))
    ensures Conjunct(f, g) != 0xFFFF_FFFF ==>
              InFamily(Conjunct(f, g), c.ucp) &&
              (Passable(Conjunct(f, g), c) <==> Passable(f, c) && Passable(g, c))
  {
  }

  /** Parallel composition of live masks is logical disjunction, and never DEAD. */
  lemma DisjunctMeaning(f: Flags, g: Flags, c: Context)
    requires InFamily(f, c.ucp) && InFamily(g, c.ucp)
    ensures Disjunct(f, g) != DEAD_EDGE && InFamily(Disjunct(f, g), c.ucp)
    ensures Passable(Disjunct(f, g), c) <==> Passable(f, c) || Passable(g, c)
  {
  }

  /** The mask that a path (in-edge, assert vertex, out-edge) really stands for. */
  function PathFlags(inEdge: Flags, m: Flags, outEdge: Flags): Flags {
    var incIn := Conjunct(inEdge, m);
    if incIn == DEAD_EDGE then DEAD_EDGE else Conjunct(outEdge, incIn)
  }

  lemma PathMeaning(inEdge: Flags, m: Flags, outEdge: Flags, c: Context)
    requires InFamily(inEdge, c.ucp) && InFamily(m, c.ucp) && InFamily(outEdge, c.ucp)
    ensures PathFlags(inEdge, m, outEdge) != DEAD_EDGE ==> InFamily(PathFlags(inEdge, m, outEdge), c.ucp)
    ensures (PathFlags(inEdge, m, outEdge) != DEAD_EDGE && Passable(PathFlags(inEdge, m, outEdge), c))
            <==> Passable(inEdge, c) && Passable(m, c) && Passable(outEdge, c)
  {
    ConjunctMeaning(inEdge, m, c);
    if Conjunct(inEdge, m) != DEAD_EDGE {
      ConjunctMeaning(outEdge, Conjunct(inEdge, m), c);
    }
  }

  /** With masks that the vertex cannot cut, the composed mask is the vertex's own mask or DEAD. */
  lemma PathFlagsIsVertexMask(inEdge: Flags, m: Flags, outEdge: Flags)
    requires Compatible(inEdge, m) && Compatible(outEdge, m)
    requires m != OPEN_EDGE
    ensures PathFlags(inEdge, m, outEdge) == m || PathFlags(inEdge, m, outEdge) == DEAD_EDGE
  {
    assert inEdge & m == m & inEdge;
  }

  lemma DisjunctCompatible(f: Flags, g: Flags, m: Flags)
    requires Compatible(f, m) && Compatible(g, m)
    ensures Compatible(Disjunct(f, g), m)
  {
    if Disjunct(f, g) == f | g {
      OrCompatible(f, g, m);
    }
  }

  lemma OrCompatible(f: Flags, g: Flags, m: Flags)
    requires Compatible(f, m) && Compatible(g, m)
    ensures Compatible(f | g, m)
  {
    OrDistributes(f, g, m);
    OrOfTwo(f & m, g & m, m);
  }

  lemma OrDistributes(f: Flags, g: Flags, m: Flags)
    ensures (f | g) & m == (f & m) | (g & m)
  {
  }

  lemma OrOfTwo(x: Flags, y: Flags, m: Flags)
    requires (x == 0 || x == m) && (y == 0 || y == m)
    ensures x | y == 0 || x | y == m
  {
  }

  /** The vertex's own mask admits at least what the path admits. */
  lemma VertexMaskCoversPath(inEdge: Flags, m: Flags, outEdge: Flags, c: Context)
    requires InFamily(inEdge, c.ucp) && InFamily(m, c.ucp) && InFamily(outEdge, c.ucp)
    requires PathFlags(inEdge, m, outEdge) != DEAD_EDGE
    ensures Passable(PathFlags(inEdge, m, outEdge), c) ==> Passable(m, c)
  {
    PathMeaning(inEdge, m, outEdge, c);
  }

  /** Storing the vertex mask on a new edge is exact in every context if and only if
      neither neighbouring edge narrows that mask. */
  lemma StoredMaskExactIff(inEdge: Flags, m: Flags, outEdge: Flags, ucp: bool)
    requires InFamily(inEdge, ucp) && InFamily(m, ucp) && InFamily(outEdge, ucp)
    requires m != OPEN_EDGE
    requires PathFlags(inEdge, m, outEdge) != DEAD_EDGE
    ensures (forall c: Context | c.ucp == ucp ::
               Passable(m, c) <==> Passable(inEdge, c) && Passable(m, c) && Passable(outEdge, c))
            <==> (inEdge == OPEN_EDGE || inEdge & m == m) && (outEdge == OPEN_EDGE || outEdge & m == m)
  {
    var c00, c01 := Context(ucp, false, false), Context(ucp, false, true);
    var c10, c11 := Context(ucp, true, false), Context(ucp, true, true);
    assert forall c: Context | c.ucp == ucp :: c == c00 || c == c01 || c == c10 || c == c11;
    assert Bit(c00) | Bit(c01) | Bit(c10) | Bit(c11) == Family(ucp);
    SplitByBits(inEdge, m, ucp);
    SplitByBits(outEdge, m, ucp);
  }

  /** `m` is a submask of a non-open `f` exactly when `f` passes every context that `m` passes. */
  lemma SplitByBits(f: Flags, m: Flags, ucp: bool)
    requires InFamily(f, ucp) && InFamily(m, ucp) && m != OPEN_EDGE
    ensures (f == OPEN_EDGE || f & m == m)
            <==> (forall c: Context | c.ucp == ucp :: Passable(m, c) ==> Passable(f, c))
  {
    var c00, c01 := Context(ucp, false, false), Context(ucp, false, true);
    var c10, c11 := Context(ucp, true, false), Context(ucp, true, true);
    assert (f == OPEN_EDGE || f & m == m) <==>
           (Passable(m, c00) ==> Passable(f, c00)) && (Passable(m, c01) ==> Passable(f, c01)) &&
           (Passable(m, c10) ==> Passable(f, c10)) && (Passable(m, c11) ==> Passable(f, c11));
    assert forall c: Context | c.ucp == ucp :: c == c00 || c == c01 || c == c10 || c == c11;
  }
}
