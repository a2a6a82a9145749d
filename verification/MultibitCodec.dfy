/** Sizing, compressing and decompressing a multibit by an iterative depth-first walk. */
module MultibitCodec {
  import opened Common
  import opened Crc32c
  import opened Multibit

  function FlatSize(total: nat): nat { (total + 7) / 8 }

  predicate IsFlat(total: nat) { total <= FLAT_MAX_BITS }

  function PyramidOf(m: seq<Byte>, at: nat, total: nat): Pyramid {
    Pyramid(m, at, MaxLevel(total))
  }

  /** A multibit whose blocks in use lie in its region of the given size. */
  ghost predicate Fits(m: seq<Byte>, at: nat, total: nat, size: nat) {
    if IsFlat(total) then FlatSize(total) <= size && at + size <= |m|
    else BLOCK <= size && PyramidOf(m, at, total).Inside(size)
  }

  /** The compressed form. */
  function Image(m: seq<Byte>, at: nat, total: nat): seq<Byte>
    requires IsFlat(total) ==> at + FlatSize(total) <= |m|
  {
    if IsFlat(total) then m[at..at + FlatSize(total)] else PyramidOf(m, at, total).Image()
  }

  /** The same keys, in memory that need not be the same elsewhere. */
  ghost predicate Restored(m: seq<Byte>, src: seq<Byte>, at: nat, total: nat) {
    && |m| == |src|
    && if IsFlat(total) then at + FlatSize(total) <= |m| && m[at..at + FlatSize(total)] == src[at..at + FlatSize(total)]
       else Agree(PyramidOf(src, at, total), PyramidOf(m, at, total))
  }

  /** What is still to be emitted. */
  function Remaining(p: Pyramid, l: nat, j: nat, rem: nat): seq<Byte>
    requires l <= p.max && rem <= 64
  {
    (if rem == 0 then p.Block(l, j) else []) + p.Rest(l, j, rem)
  }

  lemma StartImage(p: Pyramid)
    ensures p.Image() == Remaining(p, 0, 0, 0)
  {
    hide Pyramid.Children, Pyramid.Block;
    assert p.Children(0, 0, 0) + [] == p.Children(0, 0, 0);
  }

  /** Where a walk may stand: on a path of set bits, behind a bit that was set. */
  predicate Standing(p: Pyramid, l: nat, j: nat, rem: nat) {
    l <= p.max && rem <= 64 && p.OnPath(l, j) && (rem > 0 ==> IsSet(p.Block(l, j), rem - 1))
  }

  lemma StepDown(p: Pyramid, l: nat, j: nat, rem: nat, b: nat)
    requires Standing(p, l, j, rem) && l < p.max && b == NextSet(p.Block(l, j), rem) < 64
    ensures Standing(p, l + 1, 64 * j + b, 0)
    ensures p.Rest(l, j, rem) == Remaining(p, l + 1, 64 * j + b, 0)
  {
    hide IsSet, Pyramid.Block, Pyramid.Rest;
    p.Down(l, j, rem, b);
    var c := 64 * j + b;
    assert c / 64 == j && c % 64 == b;
  }

  lemma StepUp(p: Pyramid, l: nat, j: nat, rem: nat)
    requires Standing(p, l, j, rem) && (l == p.max || rem == 64 || NextSet(p.Block(l, j), rem) == 64)
    ensures l == 0 ==> p.Rest(l, j, rem) == []
    ensures l > 0 ==> Standing(p, l - 1, j / 64, j % 64 + 1)
    ensures l > 0 ==> p.Rest(l, j, rem) == Remaining(p, l - 1, j / 64, j % 64 + 1)
  {
    hide IsSet, Pyramid.Block, Pyramid.Rest;
    p.Up(l, j, rem);
  }

  /** No bit below where the walk stands: it is the first visit. */
  lemma FirstVisit(p: Pyramid, l: nat, j: nat, rem: nat)
    requires Standing(p, l, j, rem)
    ensures NextSet(p.Block(l, j), 0) >= rem <==> rem == 0
  {
  }

  method CompSize(m: seq<Byte>, at: nat, total: nat) returns (size: nat)
    requires IsFlat(total) ==> at + FlatSize(total) <= |m|
    ensures size == |Image(m, at, total)|
  {
    hide IsSet, Pyramid.Block, Pyramid.Rest, NextSet, Standing, Pyramid.Preorder;
    if IsFlat(total) {
      return FlatSize(total);
    }
    var p := PyramidOf(m, at, total);
    StartImage(p);
    if NextSet(p.Block(0, 0), 0) == 64 {
      p.Up(0, 0, 0);
      return BLOCK;
    }
    var level, key, rem, blocks := 0, 0, 0, 0;
    AtRoot(p);
    while true
      invariant Standing(p, level, key, rem) && level <= p.max && rem <= 64
      invariant |p.Image()| == BLOCK * blocks + |Remaining(p, level, key, rem)|
      decreases |Remaining(p, level, key, rem)|, if rem == 0 then 0 else 1 + level
    {
      FirstVisit(p, level, key, rem);
      if rem < 64 {
        var block := p.Block(level, key);
        if NextSet(block, 0) >= rem {
          blocks := blocks + 1;
        }
        var b := NextSet(block, rem);
        if level < p.max && b < 64 {
          StepDown(p, level, key, rem, b);
          level, key, rem := level + 1, 64 * key + b, 0;
          continue;
        }
      }
      StepUp(p, level, key, rem);
      if level == 0 {
        return BLOCK * blocks;
      }
      level, key, rem := level - 1, key / 64, key % 64 + 1;
    }
  }

  lemma AtRoot(p: Pyramid)
    ensures Standing(p, 0, 0, 0)
  {
  }

  /** Compress if there is room. */
  method Compress(m: seq<Byte>, at: nat, total: nat, room: nat) returns (ok: bool, comp: seq<Byte>)
    requires IsFlat(total) ==> at + FlatSize(total) <= |m|
    ensures ok <==> |Image(m, at, total)| <= room
    ensures comp == if ok then Image(m, at, total) else []
  {
    hide IsSet, Pyramid.Block, Pyramid.Rest, NextSet, Standing, Pyramid.Preorder;
    var size := CompSize(m, at, total);
    if size > room {
      return false, [];
    }
    if IsFlat(total) {
      return true, m[at..at + size];
    }
    comp := Emit(PyramidOf(m, at, total));
    return true, comp;
  }

  /** The blocks in use, in the order of the walk. */
  method Emit(p: Pyramid) returns (comp: seq<Byte>)
    ensures comp == p.Image()
  {
    hide IsSet, Pyramid.Block, Pyramid.Rest, NextSet, Standing, Pyramid.Preorder;
    StartImage(p);
    if NextSet(p.Block(0, 0), 0) == 64 {
      p.Up(0, 0, 0);
      return p.Block(0, 0);
    }
    var level, key, rem := 0, 0, 0;
    comp := [];
    AtRoot(p);
    while true
      invariant Standing(p, level, key, rem) && level <= p.max && rem <= 64
      invariant p.Image() == comp + Remaining(p, level, key, rem)
      decreases |Remaining(p, level, key, rem)|, if rem == 0 then 0 else 1 + level
    {
      FirstVisit(p, level, key, rem);
      if rem < 64 {
        var block := p.Block(level, key);
        if NextSet(block, 0) >= rem {
          comp := comp + block;
        }
        var b := NextSet(block, rem);
        if level < p.max && b < 64 {
          StepDown(p, level, key, rem, b);
          level, key, rem := level + 1, 64 * key + b, 0;
          continue;
        }
      }
      StepUp(p, level, key, rem);
      if level == 0 {
        return comp;
      }
      level, key, rem := level - 1, key / 64, key % 64 + 1;
    }
  }

  function Put(m: seq<Byte>, p: nat, block: seq<Byte>): (r: seq<Byte>)
    requires p + |block| <= |m|
    ensures |r| == |m|
  {
    m[..p] + block + m[p + |block|..]
  }

  function Place(at: nat, n: Node): nat { at + BLOCK * Index(n) }

  lemma PutHere(m: seq<Byte>, p: nat, block: seq<Byte>)
    requires |block| == BLOCK && p + BLOCK <= |m|
    ensures Word(Put(m, p, block), p) == block
  {
  }

  lemma PutElsewhere(m: seq<Byte>, p: nat, block: seq<Byte>, o: nat)
    requires |block| == BLOCK && p + BLOCK <= |m| && (o + BLOCK <= p || p + BLOCK <= o)
    ensures Word(Put(m, p, block), o) == Word(m, o)
  {
  }

  /** The blocks read so far: in use, and equal in both memories. */
  ghost predicate Copied(q: Pyramid, m: seq<Byte>, seen: set<Node>) {
    forall n :: n in seen ==> n in q.InUse() && Word(m, Place(q.at, n)) == q.Block(n.level, n.key)
  }

  /** A block and all above it have been read. */
  ghost predicate PathSeen(seen: set<Node>, l: nat, j: nat)
    decreases l
  {
    Node(l, j) in seen && (l > 0 ==> PathSeen(seen, l - 1, j / 64))
  }

  lemma {:induction false} PathStaysSeen(seen: set<Node>, more: set<Node>, l: nat, j: nat)
    requires PathSeen(seen, l, j) && seen <= more
    ensures PathSeen(more, l, j)
    decreases l
  {
    if l > 0 {
      PathStaysSeen(seen, more, l - 1, j / 64);
    }
  }

  /** Reading one more block keeps what was read. */
  lemma CopyOne(q: Pyramid, m: seq<Byte>, seen: set<Node>, n: Node, size: nat)
    requires Copied(q, m, seen) && n in q.InUse() && q.Inside(size) && |m| == |q.m|
    ensures Place(q.at, n) + BLOCK <= q.at + size <= |m|
    ensures Copied(q, Put(m, Place(q.at, n), q.Block(n.level, n.key)), seen + {n})
  {
    hide Pyramid.InUse, Index, Put, Word;
    AllProper(q);
    var block, p := q.Block(n.level, n.key), Place(q.at, n);
    PutHere(m, p, block);
    forall o | o in seen
      ensures Word(Put(m, p, block), Place(q.at, o)) == Word(m, Place(q.at, o))
    {
      if o == n {
        assert Word(m, p) == block;
      } else {
        IndexInjective(o, n);
        PutElsewhere(m, p, block, Place(q.at, o));
      }
    }
  }

  lemma AllProper(q: Pyramid)
    ensures forall n :: n in q.InUse() ==> Proper(n)
  {
    ProperNodes(q, 0, 0, 0);
  }

  /** A walk over memory being filled: what was read, where it stands, and what the input still holds. */
  ghost predicate Filling(q: Pyramid, m: seq<Byte>, seen: set<Node>, l: nat, j: nat, rem: nat, input: seq<Byte>) {
    && l <= q.max && rem <= 64 && |m| == |q.m| && Copied(q, m, seen) && PathSeen(seen, l, j)
    && q.InUse() == seen + q.RestNodes(l, j, rem) && q.Rest(l, j, rem) <= input
  }

  lemma FillRoot(q: Pyramid, m: seq<Byte>, size: nat, input: seq<Byte>)
    requires |m| == |q.m| && q.Inside(size) && q.Image() <= input
    ensures q.at + BLOCK <= q.at + size <= |m| && BLOCK <= |input| && input[..BLOCK] == q.Block(0, 0)
    ensures Filling(q, Put(m, q.at, q.Block(0, 0)), {Node(0, 0)}, 0, 0, 0, input[BLOCK..])
  {
    hide Pyramid.Block, Pyramid.Children, Pyramid.ChildNodes, Put;
    StartImage(q);
    var root := Node(0, 0);
    assert root in q.InUse();
    CopyOne(q, m, {}, root, size);
    assert {} + {root} == {root};
    assert q.Image()[..BLOCK] == q.Block(0, 0) && q.Image()[BLOCK..] == q.Rest(0, 0, 0);
  }

  /** The walk over the memory being filled sees the source's blocks. */
  lemma SeesSource(q: Pyramid, m: seq<Byte>, seen: set<Node>, l: nat, j: nat, rem: nat, input: seq<Byte>)
    requires Filling(q, m, seen, l, j, rem, input)
    ensures Word(m, Place(q.at, Node(l, j))) == q.Block(l, j)
  {
    hide Pyramid.Block, Pyramid.Rest, Pyramid.RestNodes, Pyramid.InUse;
  }

  ghost predicate CanDescend(q: Pyramid, l: nat, j: nat, rem: nat, b: nat, n: Node) {
    && n.level == l + 1 && n.key == 64 * j + b && l < q.max && rem <= 64 && b == NextSet(q.Block(l, j), rem) < 64
    && |q.Rest(l, j, rem)| == BLOCK + |q.Rest(l + 1, 64 * j + b, 0)|
  }

  lemma Descent(q: Pyramid, l: nat, j: nat, rem: nat, b: nat)
    requires l < q.max && rem <= 64 && b == NextSet(q.Block(l, j), rem) < 64
    ensures CanDescend(q, l, j, rem, b, Node(l + 1, 64 * j + b))
  {
    hide Pyramid.Block, Pyramid.Rest, NextSet;
    q.Down(l, j, rem, b);
  }

  /** The next block can be read into its place, and the walk goes on from there. */
  ghost predicate CanRead(q: Pyramid, m: seq<Byte>, seen: set<Node>, n: Node, input: seq<Byte>, size: nat) {
    && Place(q.at, n) + BLOCK <= q.at + size <= |m| && BLOCK <= |input|
    && Filling(q, Put(m, Place(q.at, n), input[..BLOCK]), seen + {n}, n.level, n.key, 0, input[BLOCK..])
  }

  lemma FillDown(q: Pyramid, m: seq<Byte>, seen: set<Node>, l: nat, j: nat, rem: nat, input: seq<Byte>, size: nat,
                 b: nat, n: Node)
    requires Filling(q, m, seen, l, j, rem, input) && q.Inside(size)
    requires CanDescend(q, l, j, rem, b, n)
    ensures CanRead(q, m, seen, n, input, size)
  {
    hide Pyramid.Block, Pyramid.Rest, Pyramid.RestNodes, Pyramid.InUse, Put, NextSet, Pyramid.Inside, Copied;
    q.Down(l, j, rem, b);
    var c := n.key;
    assert c / 64 == j;
    CopyOne(q, m, seen, n, size);
    PathStaysSeen(seen, seen + {n}, l, j);
    assert input[..BLOCK] == q.Rest(l, j, rem)[..BLOCK] == q.Block(l + 1, c);
    assert q.Rest(l, j, rem)[BLOCK..] == q.Rest(l + 1, c, 0);
  }

  lemma FillUp(q: Pyramid, m: seq<Byte>, seen: set<Node>, l: nat, j: nat, rem: nat, input: seq<Byte>)
    requires Filling(q, m, seen, l, j, rem, input)
    requires l == q.max || rem == 64 || NextSet(q.Block(l, j), rem) == 64
    ensures l == 0 ==> q.InUse() == seen && q.Rest(l, j, rem) == []
    ensures l > 0 ==> Filling(q, m, seen, l - 1, j / 64, j % 64 + 1, input)
    ensures l > 0 ==> q.Rest(l, j, rem) == q.Rest(l - 1, j / 64, j % 64 + 1)
  {
    hide Pyramid.Block, Pyramid.Rest, Pyramid.RestNodes, Pyramid.InUse, Copied;
    q.Up(l, j, rem);
  }

  /** Only bytes of the region differ. */
  ghost predicate SameOutside(m: seq<Byte>, m': seq<Byte>, at: nat, size: nat) {
    |m| == |m'| && forall i: nat :: i < |m| && (i < at || at + size <= i) ==> m[i] == m'[i]
  }

  lemma PutInside(was: seq<Byte>, m: seq<Byte>, at: nat, size: nat, p: nat, block: seq<Byte>)
    requires SameOutside(was, m, at, size) && at <= p && p + |block| <= at + size <= |m|
    ensures SameOutside(was, Put(m, p, block), at, size)
  {
  }

  /** Bytes of memory; what lies behind the end of the sequence reads as zero. */
  function Bytes(input: seq<Byte>, p: nat, n: nat): (r: seq<Byte>)
    ensures |r| == n
  {
    seq(n, i requires 0 <= i < n => if p + i < |input| then input[p + i] else 0)
  }

  /** The input begins with this many bytes of the image, whatever comes behind them. */
  ghost predicate Begins(input: seq<Byte>, image: seq<Byte>, known: nat) {
    known <= |input| && known <= |image| && input[..known] == image[..known]
  }

  lemma KnownBytes(input: seq<Byte>, image: seq<Byte>, known: nat, p: nat, n: nat)
    requires Begins(input, image, known) && p + n <= known
    ensures p + n <= |image| && Bytes(input, p, n) == image[p..p + n]
  {
    assert forall i: nat :: i < known ==> input[..known][i] == input[i] && image[..known][i] == image[i];
  }

  /** No set bit of the first block lies in the first bytes. */
  ghost predicate ClearBefore(p: Pyramid, bytes: nat) {
    forall b: nat :: b < 64 && b / 8 < bytes ==> !IsSet(p.Block(0, 0), b)
  }

  /** A write that may miss the memory altogether. */
  function PutIfInside(m: seq<Byte>, p: nat, block: seq<Byte>): (r: seq<Byte>)
    ensures |r| == |m|
  {
    if p + |block| <= |m| then Put(m, p, block) else m
  }

  /** Restore a pyramid from the front of the input, of which `known` bytes are those of the image. The root is read
      without a look at the limit; every further block is refused when it ends beyond it. */
  method Fill(m: seq<Byte>, at: nat, total: nat, input: seq<Byte>, limit: int, ghost src: seq<Byte>, ghost size: nat,
              ghost known: nat)
    returns (ok: bool, m': seq<Byte>, used: nat)
    requires !IsFlat(total) && |m| == |src| && Fits(src, at, total, size)
    requires Begins(input, Image(src, at, total), known) && (known == |Image(src, at, total)| || known >= limit)
    ensures |m'| == |m|
    ensures known == |Image(src, at, total)| ==>
              && SameOutside(m, m', at, size)
              && (ok <==> IsClear(PyramidOf(src, at, total)) || |Image(src, at, total)| <= limit)
              && (ok ==> used == |Image(src, at, total)| && Restored(m', src, at, total))
    ensures known < |Image(src, at, total)| && ok ==>
              used == BLOCK > limit && SameOutside(m, m', at, size) && ClearBefore(PyramidOf(src, at, total), known)
  {
    hide Pyramid.Block, Pyramid.Rest, Pyramid.RestNodes, Pyramid.InUse, Put, NextSet, Pyramid.Inside, Copied, Filling,
         SameOutside, Pyramid.Preorder, Bytes, Begins, ClearBefore, CanRead;
    ghost var q, img := PyramidOf(src, at, total), Image(src, at, total);
    var max := MaxLevel(total);
    FillRoot(q, m, size, img);
    RootImage(q);
    var root := Bytes(input, 0, BLOCK);
    m', used, ok := Put(m, at, root), BLOCK, true;
    ghost var seen := {Node(0, 0)};
    PutInside(m, m, at, size, at, root) by { Untouched(m, at, size); }
    ghost var firm := known >= BLOCK;
    if firm {
      KnownBytes(input, img, known, 0, BLOCK);
      assert img[0..BLOCK] == img[..BLOCK];
    } else {
      RootRead(m, at, root);
    }
    if NextSet(root, 0) == 64 {
      ZeroRoot(q, img, input, known, root);
      if firm {
        FillUp(q, m', seen, 0, 0, 0, img[BLOCK..]);
        AllCopied(q, m', seen, 0, 0, 0, img[BLOCK..], total);
      }
      return;
    }
    var level, key, rem := 0, 0, 0;
    while true
      invariant level <= max && rem <= 64 && q.max == max && |m'| == |m|
      invariant firm ==>
                  && used <= |img| && Filling(q, m', seen, level, key, rem, img[used..])
                  && SameOutside(m, m', at, size) && |img| == used + |q.Rest(level, key, rem)|
      invariant !firm ==> known < BLOCK && level == key == rem == 0 && used == BLOCK && Word(m', Place(at, Node(0, 0))) == root
      invariant used == BLOCK || used <= limit
      decreases if firm then |q.Rest(level, key, rem)| else 0, level
    {
      if rem < 64 {
        if firm {
          SeesSource(q, m', seen, level, key, rem, img[used..]);
        }
        var block := Word(m', Place(at, Node(level, key)));
        var b := NextSet(block, rem);
        if level < max && b < 64 {
          ghost var wasFirm, from, m0 := firm, used, m';
          if firm {
            Descent(q, level, key, rem, b);
            FillDown(q, m', seen, level, key, rem, img[used..], size, b, Node(level + 1, 64 * key + b));
          }
          level, key, rem := level + 1, 64 * key + b, 0;
          var p := Place(at, Node(level, key));
          var next := Bytes(input, used, BLOCK);
          m', used := PutIfInside(m', p, next), used + BLOCK;
          if firm && used <= known {
            NextBlock(q, m, m0, seen, Node(level, key), input, img, known, from, size);
            seen := seen + {Node(level, key)};
          }
          if used > limit {
            return false, m', used;
          }
          continue;
        }
      }
      FillUp(q, m', seen, level, key, rem, img[used..]);
      if level == 0 {
        AllCopied(q, m', seen, level, key, rem, img[used..], total);
        return true, m', used;
      }
      level, key, rem := level - 1, key / 64, key % 64 + 1;
    }
  }

  lemma RootRead(m: seq<Byte>, at: nat, root: seq<Byte>)
    requires |root| == BLOCK && at + BLOCK <= |m|
    ensures Word(Put(m, at, root), Place(at, Node(0, 0))) == root
  {
  }

  /** A root read as zero: either the image's own, or its known bytes hold no bit. */
  lemma ZeroRoot(q: Pyramid, img: seq<Byte>, input: seq<Byte>, known: nat, root: seq<Byte>)
    requires BLOCK <= |img| && img[..BLOCK] == q.Block(0, 0) && Begins(input, img, known)
    requires root == Bytes(input, 0, BLOCK) && NextSet(root, 0) == 64
    ensures ClearBefore(q, known)
    ensures known >= BLOCK ==> root == q.Block(0, 0)
  {
    hide Pyramid.Block;
    forall b: nat | b < 64 && b / 8 < known
      ensures !IsSet(q.Block(0, 0), b)
    {
      assert input[..known][b / 8] == img[..known][b / 8];
      assert root[b / 8] == input[b / 8] == img[b / 8] == q.Block(0, 0)[b / 8];
      assert !IsSet(root, b);
    }
    if known >= BLOCK {
      KnownBytes(input, img, known, 0, BLOCK);
    }
  }

  /** The next block, when it is known. */
  lemma NextBlock(q: Pyramid, was: seq<Byte>, m: seq<Byte>, seen: set<Node>, n: Node, input: seq<Byte>, img: seq<Byte>,
                  known: nat, used: nat, size: nat)
    requires Begins(input, img, known) && used + BLOCK <= known && SameOutside(was, m, q.at, size)
    requires used <= |img| && CanRead(q, m, seen, n, img[used..], size)
    ensures used + BLOCK <= |img|
    ensures var m' := PutIfInside(m, Place(q.at, n), Bytes(input, used, BLOCK));
            && SameOutside(was, m', q.at, size)
            && Filling(q, m', seen + {n}, n.level, n.key, 0, img[used + BLOCK..])
  {
    hide Put, Filling, SameOutside, Bytes;
    KnownBytes(input, img, known, used, BLOCK);
    assert img[used..][..BLOCK] == img[used..used + BLOCK] && img[used..][BLOCK..] == img[used + BLOCK..];
    PutInside(was, m, q.at, size, Place(q.at, n), Bytes(input, used, BLOCK));
  }

  /** All bits of the first block are clear. */
  predicate IsClear(p: Pyramid) {
    NextSet(p.Block(0, 0), 0) == 64
  }

  lemma Untouched(m: seq<Byte>, at: nat, size: nat)
    ensures SameOutside(m, m, at, size)
  {
  }

  /** A pyramid with a bit set takes at least two blocks. */
  lemma RootImage(q: Pyramid)
    ensures |q.Image()| == BLOCK + |q.Rest(0, 0, 0)|
    ensures NextSet(q.Block(0, 0), 0) < 64 && q.max > 0 ==> |q.Image()| >= 2 * BLOCK
  {
    hide Pyramid.Block, Pyramid.Rest, NextSet;
    StartImage(q);
    if NextSet(q.Block(0, 0), 0) < 64 && q.max > 0 {
      q.Down(0, 0, 0, NextSet(q.Block(0, 0), 0));
    }
  }

  lemma AllCopied(q: Pyramid, m: seq<Byte>, seen: set<Node>, l: nat, j: nat, rem: nat, input: seq<Byte>, total: nat)
    requires Filling(q, m, seen, l, j, rem, input) && seen == q.InUse() && q.max == MaxLevel(total) && !IsFlat(total)
    ensures Restored(m, q.m, q.at, total)
  {
    hide Pyramid.InUse, Pyramid.Rest, Pyramid.RestNodes;
  }

  /** The compressed form is accepted whatever the limit: a flat multibit, or a pyramid with no bit set. */
  predicate Unchecked(m: seq<Byte>, at: nat, total: nat) {
    IsFlat(total) || IsClear(PyramidOf(m, at, total))
  }

  /** What a multibit cut short leaves when it is accepted: the known bytes of a flat one, or nothing of a pyramid, no
      known byte of whose root has a bit set. */
  ghost predicate CutShort(m: seq<Byte>, src: seq<Byte>, at: nat, total: nat, known: nat) {
    if IsFlat(total) then at + known <= |m| == |src| && m[at..at + known] == src[at..at + known]
    else ClearBefore(PyramidOf(src, at, total), known)
  }

  /** Restore a multibit from the front of the input, of which `limit` bytes are said to be there, and `known` bytes are
      those of the image. */
  method Decompress(m: seq<Byte>, at: nat, total: nat, input: seq<Byte>, limit: int, ghost src: seq<Byte>,
                    ghost size: nat, ghost known: nat)
    returns (ok: bool, m': seq<Byte>, used: nat)
    requires |m| == |src| && Fits(src, at, total, size)
    requires Begins(input, Image(src, at, total), known) && (known == |Image(src, at, total)| || known >= limit)
    ensures |m'| == |m|
    ensures known == |Image(src, at, total)| ==>
              && SameOutside(m, m', at, size)
              && (ok <==> Unchecked(src, at, total) || |Image(src, at, total)| <= limit)
              && (ok ==> used == |Image(src, at, total)| && Restored(m', src, at, total))
    ensures known < |Image(src, at, total)| && ok ==>
              used > limit && SameOutside(m, m', at, size) && CutShort(m', src, at, total, known)
  {
    hide Pyramid.Image, Pyramid.Inside, Agree, IsClear, ClearBefore;
    if IsFlat(total) {
      used := FlatSize(total);
      m', ok := Put(m, at, Bytes(input, 0, used)), true;
      FlatRead(m, m', src, at, total, input, known);
      return;
    }
    ok, m', used := Fill(m, at, total, input, limit, src, size, known);
  }

  lemma FlatRead(m: seq<Byte>, m': seq<Byte>, src: seq<Byte>, at: nat, total: nat, input: seq<Byte>, known: nat)
    requires IsFlat(total) && |m| == |src| && at + FlatSize(total) <= |m| && Begins(input, Image(src, at, total), known)
    requires m' == Put(m, at, Bytes(input, 0, FlatSize(total)))
    ensures CutShort(m', src, at, total, known)
    ensures known == |Image(src, at, total)| ==> Restored(m', src, at, total)
  {
    var n := FlatSize(total);
    KnownBytes(input, Image(src, at, total), known, 0, known);
    assert m'[at..at + n] == Bytes(input, 0, n);
    assert m'[at..at + known] == m'[at..at + n][..known] == Bytes(input, 0, known);
    assert src[at..at + known] == Image(src, at, total)[..known];
  }

  /** Whether a key is on. */
  predicate KeyOn(m: seq<Byte>, at: nat, total: nat, k: nat) {
    k < total && if IsFlat(total) then at + k / 8 < |m| && IsSet(m[at..], k) else PyramidOf(m, at, total).On(k)
  }

  lemma RestoredKeys(m: seq<Byte>, src: seq<Byte>, at: nat, total: nat, k: nat)
    requires Restored(m, src, at, total)
    ensures KeyOn(m, at, total, k) <==> KeyOn(src, at, total, k)
  {
    hide Agree, Pyramid.On, Pyramid.InUse, Pyramid.Image, MaxLevel;
    if !IsFlat(total) {
      AgreeMeansSame(PyramidOf(src, at, total), PyramidOf(m, at, total));
    } else if k < total {
      var n := FlatSize(total);
      assert m[at..at + n][k / 8] == src[at..at + n][k / 8];
    }
  }

  /** A restored multibit stays restored when memory outside its region changes. */
  lemma RestoredStays(m: seq<Byte>, m': seq<Byte>, src: seq<Byte>, at: nat, total: nat, size: nat, at': nat, size': nat)
    requires Restored(m, src, at, total) && Fits(src, at, total, size) && SameOutside(m, m', at', size')
    requires at + size <= at' || at' + size' <= at
    ensures Restored(m', src, at, total)
  {
    hide Pyramid.InUse, MaxLevel;
    if IsFlat(total) {
      assert m'[at..at + FlatSize(total)] == m[at..at + FlatSize(total)];
    } else {
      var q, p, p' := PyramidOf(src, at, total), PyramidOf(m, at, total), PyramidOf(m', at, total);
      forall n | n in q.InUse()
        ensures q.Block(n.level, n.key) == p'.Block(n.level, n.key)
      {
        var o := Place(at, n);
        assert m[o..o + BLOCK] == m'[o..o + BLOCK];
      }
    }
  }
}
