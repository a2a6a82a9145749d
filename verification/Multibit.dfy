/** Multibits: flat bit vectors, and pyramids of 64-bit blocks of which only the blocks in use travel. */
module Multibit {
  import opened Common
  import opened Crc32c
  import Bits

  const FLAT_MAX_BITS: nat := 256
  const BLOCK: nat := 8

  function Pow64(l: nat): (r: nat)
    ensures r >= 1
  {
    if l == 0 then 1 else 64 * Pow64(l - 1)
  }

  /** The level whose blocks hold one bit per key. */
  function MaxLevel(total: nat): nat
    decreases total
  {
    if total <= 64 then 0 else 1 + MaxLevel((total + 63) / 64)
  }

  /** The number of blocks on the levels above. */
  function Root(l: nat): nat {
    if l == 0 then 0 else Root(l - 1) + Pow64(l - 1)
  }

  predicate IsSet(block: seq<Byte>, b: nat)
    requires b / 8 < |block|
  {
    Bits.Bit(block[b / 8], b % 8)
  }

  /** The least set bit from rem on, or 64. */
  function NextSet(block: seq<Byte>, rem: nat): (b: nat)
    requires |block| == BLOCK && rem <= 64
    ensures rem <= b <= 64 && (b < 64 ==> IsSet(block, b))
    ensures forall k: nat :: rem <= k < b ==> !IsSet(block, k)
    decreases 64 - rem
  {
    if rem == 64 || IsSet(block, rem) then rem else NextSet(block, rem + 1)
  }

  /** Eight bytes of memory. */
  function Word(m: seq<Byte>, p: nat): (r: seq<Byte>)
    ensures |r| == BLOCK
  {
    if p + BLOCK <= |m| then m[p..p + BLOCK] else [0, 0, 0, 0, 0, 0, 0, 0]
  }

  datatype Node = Node(level: nat, key: nat)

  function Index(n: Node): nat { Root(n.level) + n.key }

  predicate Proper(n: Node) { n.key < Pow64(n.level) }

  /** A pyramid in memory. */
  datatype Pyramid = Pyramid(m: seq<Byte>, at: nat, max: nat)
  {
    function Block(l: nat, j: nat): (r: seq<Byte>)
      ensures |r| == BLOCK
    {
      Word(m, at + BLOCK * Index(Node(l, j)))
    }

    /** The blocks in use below and including one block, parents first, children in key order. */
    function Preorder(l: nat, j: nat): seq<Byte>
      requires l <= max
      decreases max - l, 65
    {
      Block(l, j) + Children(l, j, 0)
    }

    function Children(l: nat, j: nat, rem: nat): seq<Byte>
      requires l <= max && rem <= 64
      decreases max - l, 64 - rem
    {
      if l == max || rem == 64 then []
      else if IsSet(Block(l, j), rem) then Preorder(l + 1, 64 * j + rem) + Children(l, j, rem + 1)
      else Children(l, j, rem + 1)
    }

    /** What a depth-first walk has still to visit, standing at a block with the bits below rem done. */
    function Rest(l: nat, j: nat, rem: nat): seq<Byte>
      requires l <= max && rem <= 64
      decreases l
    {
      Children(l, j, rem) + if l == 0 then [] else Rest(l - 1, j / 64, j % 64 + 1)
    }

    function Nodes(l: nat, j: nat): set<Node>
      requires l <= max
      decreases max - l, 65
    {
      {Node(l, j)} + ChildNodes(l, j, 0)
    }

    function ChildNodes(l: nat, j: nat, rem: nat): set<Node>
      requires l <= max && rem <= 64
      decreases max - l, 64 - rem
    {
      if l == max || rem == 64 then {}
      else if IsSet(Block(l, j), rem) then Nodes(l + 1, 64 * j + rem) + ChildNodes(l, j, rem + 1)
      else ChildNodes(l, j, rem + 1)
    }

    function RestNodes(l: nat, j: nat, rem: nat): set<Node>
      requires l <= max && rem <= 64
      decreases l
    {
      ChildNodes(l, j, rem) + if l == 0 then {} else RestNodes(l - 1, j / 64, j % 64 + 1)
    }

    /** The bit that leads to this block is set, and so on up to the root. */
    predicate OnPath(l: nat, j: nat)
      decreases l
    {
      if l == 0 then j == 0 else IsSet(Block(l - 1, j / 64), j % 64) && OnPath(l - 1, j / 64)
    }

    /** The blocks in use. */
    function InUse(): set<Node> { Nodes(0, 0) }

    /** The compressed form. */
    function Image(): seq<Byte> { Preorder(0, 0) }

    /** The keys that are on. */
    predicate On(k: nat) {
      Node(max, k / 64) in InUse() && IsSet(Block(max, k / 64), k % 64)
    }

    /** Blocks in use lie inside the region of the multibit. */
    ghost predicate Inside(size: nat) {
      && at + size <= |m|
      && forall n :: n in InUse() ==> BLOCK * Index(n) + BLOCK <= size
    }

    lemma SkipClear(l: nat, j: nat, rem: nat, b: nat)
      requires l <= max && rem <= b <= 64
      requires forall k: nat :: rem <= k < b ==> !IsSet(Block(l, j), k)
      ensures Children(l, j, rem) == Children(l, j, b) && ChildNodes(l, j, rem) == ChildNodes(l, j, b)
      decreases b - rem
    {
      hide IsSet, Block;
      if rem < b {
        SkipClear(l, j, rem + 1, b);
      }
    }

    /** The next child, if any. */
    lemma NextChild(l: nat, j: nat, rem: nat)
      requires l <= max && rem <= 64
      ensures var b := NextSet(Block(l, j), rem);
              if l < max && b < 64 then
                && Children(l, j, rem) == Block(l + 1, 64 * j + b) + Children(l + 1, 64 * j + b, 0) + Children(l, j, b + 1)
                && ChildNodes(l, j, rem)
                   == {Node(l + 1, 64 * j + b)} + ChildNodes(l + 1, 64 * j + b, 0) + ChildNodes(l, j, b + 1)
              else Children(l, j, rem) == [] && ChildNodes(l, j, rem) == {}
    {
      hide IsSet, Block;
      SkipClear(l, j, rem, NextSet(Block(l, j), rem));
    }

    /** Descending to the next child. */
    lemma Down(l: nat, j: nat, rem: nat, b: nat)
      requires l < max && rem <= 64 && b == NextSet(Block(l, j), rem) < 64
      ensures Rest(l, j, rem) == Block(l + 1, 64 * j + b) + Rest(l + 1, 64 * j + b, 0)
      ensures RestNodes(l, j, rem) == {Node(l + 1, 64 * j + b)} + RestNodes(l + 1, 64 * j + b, 0)
    {
      hide IsSet, Block, Children, ChildNodes;
      NextChild(l, j, rem);
      var c := 64 * j + b;
      assert c / 64 == j && c % 64 == b;
      var up := if l == 0 then [] else Rest(l - 1, j / 64, j % 64 + 1);
      assert Rest(l, j, b + 1) == Children(l, j, b + 1) + up;
    }

    /** Going up when no child is left. */
    lemma Up(l: nat, j: nat, rem: nat)
      requires l <= max && rem <= 64 && (l == max || NextSet(Block(l, j), rem) == 64)
      ensures Rest(l, j, rem) == (if l == 0 then [] else Rest(l - 1, j / 64, j % 64 + 1))
      ensures RestNodes(l, j, rem) == (if l == 0 then {} else RestNodes(l - 1, j / 64, j % 64 + 1))
    {
      hide IsSet, Block, Children, ChildNodes;
      NextChild(l, j, rem);
    }
  }

  /** Keys stay below the number of blocks of their level. */
  lemma {:induction false} ProperNodes(p: Pyramid, l: nat, j: nat, rem: nat)
    requires l <= p.max && rem <= 64 && Proper(Node(l, j))
    ensures forall n :: n in p.ChildNodes(l, j, rem) ==> Proper(n)
    decreases p.max - l, 64 - rem
  {
    hide IsSet, Pyramid.Block;
    if l < p.max && rem < 64 {
      ProperNodes(p, l, j, rem + 1);
      if IsSet(p.Block(l, j), rem) {
        ProperNodes(p, l + 1, 64 * j + rem, 0);
      }
    }
  }

  lemma {:induction false} RootMonotone(l: nat, k: nat)
    requires l < k
    ensures Root(l) + Pow64(l) <= Root(k)
    decreases k
  {
    if l < k - 1 {
      RootMonotone(l, k - 1);
    }
  }

  /** Different blocks have different places. */
  lemma IndexInjective(a: Node, b: Node)
    requires Proper(a) && Proper(b) && a != b
    ensures Index(a) != Index(b)
  {
    if a.level < b.level {
      RootMonotone(a.level, b.level);
    } else if b.level < a.level {
      RootMonotone(b.level, a.level);
    }
  }

  /** Pyramids that agree on the blocks in use hold the same keys and compress to the same bytes. */
  ghost predicate Agree(p: Pyramid, q: Pyramid) {
    p.max == q.max && forall n :: n in p.InUse() ==> p.Block(n.level, n.key) == q.Block(n.level, n.key)
  }

  lemma {:induction false} SameBelow(p: Pyramid, q: Pyramid, l: nat, j: nat, rem: nat)
    requires l <= p.max == q.max && rem <= 64 && p.Block(l, j) == q.Block(l, j)
    requires forall n :: n in p.ChildNodes(l, j, rem) ==> p.Block(n.level, n.key) == q.Block(n.level, n.key)
    ensures p.Children(l, j, rem) == q.Children(l, j, rem) && p.ChildNodes(l, j, rem) == q.ChildNodes(l, j, rem)
    decreases p.max - l, 64 - rem
  {
    hide IsSet, Pyramid.Block;
    if l < p.max && rem < 64 {
      SameBelow(p, q, l, j, rem + 1);
      if IsSet(p.Block(l, j), rem) {
        var c := 64 * j + rem;
        assert Node(l + 1, c) in p.Nodes(l + 1, c);
        SameBelow(p, q, l + 1, c, 0);
      }
    }
  }

  ghost predicate SameKeys(p: Pyramid, q: Pyramid) {
    forall k: nat :: p.On(k) <==> q.On(k)
  }

  lemma AgreeMeansSame(p: Pyramid, q: Pyramid)
    requires Agree(p, q)
    ensures p.InUse() == q.InUse() && p.Image() == q.Image() && SameKeys(p, q)
  {
    hide IsSet, Pyramid.Block, Pyramid.Children, Pyramid.ChildNodes;
    assert Node(0, 0) in p.InUse();
    SameBelow(p, q, 0, 0, 0);
    forall k: nat
      ensures p.On(k) <==> q.On(k)
    {
      var n := Node(p.max, k / 64);
      assert n in p.InUse() <==> n in q.InUse();
    }
  }
}
