/** What it means for a key to be on, bit by bit. */
module MultibitKeys {
  import opened Common
  import opened Multibit
  import opened MultibitCodec
  import opened MultibitBuild
  import Bits

  /** Bit b of the bytes at p, the low bits of each byte first. */
  predicate BitAt(m: seq<Byte>, p: nat, b: nat) {
    p + b / 8 < |m| && m[p + b / 8] / Bits.Pow2(b % 8) % 2 == 1
  }

  /** In a flat multibit key k is bit k. */
  lemma FlatKey(m: seq<Byte>, at: nat, total: nat, k: nat)
    requires total <= 256
    ensures KeyOn(m, at, total, k) <==> k < total && BitAt(m, at, k)
  {
    if at + k / 8 < |m| {
      Bits.BitIsDigit(m[at..][k / 8], k % 8);
    }
  }

  lemma WordBit(m: seq<Byte>, p: nat, b: nat)
    requires b < 64 && p + 8 <= |m|
    ensures IsSet(Word(m, p), b) <==> BitAt(m, p, b)
  {
    Bits.BitIsDigit(Word(m, p)[b / 8], b % 8);
  }

  /** The places of the levels, as the source tabulates them. */
  lemma RootTable()
    ensures Root(0) == 0 && Root(1) == 1 && Root(2) == 0x41 && Root(3) == 0x1041 && Root(4) == 0x4_1041
    ensures Root(5) == 0x104_1041 && Root(6) == 0x4104_1041
  {
    assert Pow64(2) == 0x1000 && Pow64(3) == 0x4_0000;
    assert Pow64(4) == 0x100_0000 && Pow64(5) == 0x4000_0000;
    assert Root(3) == 0x1041;
  }

  lemma {:induction false} AboveStep(j: nat, up: nat)
    ensures Above(j, up + 1) == Above(j, up) / 64
    decreases up
  {
    if up > 0 {
      AboveStep(j / 64, up - 1);
    }
  }

  /** From block j0 on level l0 set bits lead down to block j on level l. */
  predicate LeadsTo(p: Pyramid, l0: nat, j0: nat, l: nat, j: nat)
    decreases l
  {
    if l <= l0 then l == l0 && j == j0 else IsSet(p.Block(l - 1, j / 64), j % 64) && LeadsTo(p, l0, j0, l - 1, j / 64)
  }

  /** The first of those bits. */
  lemma {:induction false} LeadsBy(p: Pyramid, l0: nat, j0: nat, l: nat, j: nat)
    requires l0 < l
    ensures var a := Above(j, l - l0 - 1);
            LeadsTo(p, l0, j0, l, j) <==> a / 64 == j0 && IsSet(p.Block(l0, j0), a % 64) && LeadsTo(p, l0 + 1, a, l, j)
    decreases l
  {
    hide IsSet, Pyramid.Block;
    if l0 + 1 < l {
      LeadsBy(p, l0, j0, l - 1, j / 64);
    }
  }

  lemma {:induction false} LeadsUp(p: Pyramid, l0: nat, j0: nat, l: nat, j: nat)
    requires l0 <= l && LeadsTo(p, l0, j0, l, j)
    ensures Above(j, l - l0) == j0
    decreases l
  {
    hide IsSet, Pyramid.Block;
    if l0 < l {
      LeadsUp(p, l0, j0, l - 1, j / 64);
    }
  }

  lemma {:induction false} ChildrenLead(p: Pyramid, l: nat, j: nat, rem: nat, n: Node)
    requires l <= p.max && rem <= 64
    ensures n in p.ChildNodes(l, j, rem) <==>
            && l < n.level <= p.max && LeadsTo(p, l, j, n.level, n.key)
            && rem <= Above(n.key, n.level - l - 1) % 64
    decreases p.max - l, 64 - rem
  {
    hide IsSet, Pyramid.Block, LeadsTo;
    if l < n.level {
      LeadsBy(p, l, j, n.level, n.key);
    }
    if l < p.max && rem < 64 {
      ChildrenLead(p, l, j, rem + 1, n);
      if IsSet(p.Block(l, j), rem) {
        NodesLead(p, l + 1, 64 * j + rem, n);
        if n in p.Nodes(l + 1, 64 * j + rem) {
          LeadsUp(p, l + 1, 64 * j + rem, n.level, n.key);
        }
      }
    }
  }

  lemma {:induction false} NodesLead(p: Pyramid, l: nat, j: nat, n: Node)
    requires l <= p.max
    ensures n in p.Nodes(l, j) <==> l <= n.level <= p.max && LeadsTo(p, l, j, n.level, n.key)
    decreases p.max - l, 65
  {
    hide IsSet, Pyramid.Block, Pyramid.ChildNodes;
    ChildrenLead(p, l, j, 0, n);
  }

  /** The bit that stands for key k on level l. */
  predicate LevelBit(p: Pyramid, k: nat, l: nat)
    requires l <= p.max
  {
    IsSet(p.Block(l, Above(k, p.max + 1 - l)), Above(k, p.max - l) % 64)
  }

  lemma {:induction false} LeadsByLevels(p: Pyramid, k: nat, l: nat)
    requires l <= p.max && Above(k, p.max + 1) == 0
    ensures LeadsTo(p, 0, 0, l, Above(k, p.max + 1 - l)) <==> forall i: nat :: i < l ==> LevelBit(p, k, i)
    decreases l
  {
    hide IsSet, Pyramid.Block;
    if l > 0 {
      AboveStep(k, p.max + 1 - l);
      LeadsByLevels(p, k, l - 1);
      assert LevelBit(p, k, l - 1) <==> IsSet(p.Block(l - 1, Above(k, p.max + 2 - l)), Above(k, p.max + 1 - l) % 64);
    }
  }

  lemma {:induction false} AboveAll(k: nat, n: nat)
    requires k < Pow64(n)
    ensures Above(k, n) == 0
    decreases n
  {
    if n > 0 {
      AboveAll(k / 64, n - 1);
    }
  }

  /** In a pyramid a key is on if and only if its bit is set on every level. */
  lemma PyramidKey(m: seq<Byte>, at: nat, total: nat, k: nat)
    requires total > 256
    ensures KeyOn(m, at, total, k) <==>
            k < total && forall l: nat :: l <= MaxLevel(total) ==> LevelBit(Pyramid(m, at, MaxLevel(total)), k, l)
  {
    hide IsSet, Pyramid.Block, Pyramid.Nodes, MaxLevel;
    var max := MaxLevel(total);
    var p := Pyramid(m, at, max);
    if k < total {
      LevelHasRoom(total, max);
      AboveAll(k, max + 1);
      NodesLead(p, 0, 0, Node(max, k / 64));
      LeadsByLevels(p, k, max);
      assert Above(k, 1) == k / 64 && Above(k, 0) == k;
      assert LevelBit(p, k, max) <==> IsSet(p.Block(max, k / 64), k % 64);
      assert (forall l: nat :: l <= max ==> LevelBit(p, k, l)) <==>
             LevelBit(p, k, max) && forall l: nat :: l < max ==> LevelBit(p, k, l);
    }
  }

  /** The byte where the word of key k on level l begins. */
  function WordPlace(at: nat, max: nat, k: nat, l: nat): nat
    requires l <= max
  {
    at + 8 * (Root(l) + Above(k, max + 1 - l))
  }

  /** The same, read off the bytes. */
  lemma PyramidKeyBits(m: seq<Byte>, at: nat, total: nat, k: nat)
    requires total > 256 && at + MmbitSize(total) <= |m|
    ensures KeyOn(m, at, total, k) <==>
            && k < total
            && forall l: nat :: l <= MaxLevel(total) ==>
                 BitAt(m, WordPlace(at, MaxLevel(total), k, l), Above(k, MaxLevel(total) - l) % 64)
  {
    hide IsSet, MaxLevel, BitAt, MmbitSize, Root, KeyOn;
    PyramidKey(m, at, total, k);
    var max := MaxLevel(total);
    if k < total {
      forall l: nat | l <= max
        ensures LevelBit(Pyramid(m, at, max), k, l) <==> BitAt(m, WordPlace(at, max, k, l), Above(k, max - l) % 64)
      {
        KeyInside(total, k, l);
        assert Above(k, max + 1 - l) == Above(k / 64, max - l);
        WordBit(m, WordPlace(at, max, k, l), Above(k, max - l) % 64);
      }
    }
  }
}
