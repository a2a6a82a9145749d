/** Sizes of multibits and fatbits, as the compiler computes them. */
module MultibitBuild {
  import opened Common
  import opened Multibit
  import opened MultibitCodec

  const MAX_BITS: nat := 0x8000_0000
  const FATBIT: nat := 32

  /** Bytes of a multibit: one bit per key, or a pyramid whose levels are whole but for the last. */
  function MmbitSize(total: nat): nat {
    if IsFlat(total) then FlatSize(total) else BLOCK * (Root(MaxLevel(total)) + (total + 63) / 64)
  }

  function FatbitSize(total: nat): nat {
    if MmbitSize(total) > FATBIT then MmbitSize(total) else FATBIT
  }

  /** The last level is the first one with room for every key. */
  lemma {:induction false} LevelHasRoom(total: nat, l: nat)
    ensures MaxLevel(total) <= l <==> total <= 64 * Pow64(l)
    decreases total
  {
    if total > 64 && l > 0 {
      LevelHasRoom((total + 63) / 64, l - 1);
    }
  }

  lemma {:induction false} RootGrows(a: nat, b: nat)
    requires a <= b
    ensures Root(a) <= Root(b)
    decreases b
  {
    if a < b {
      RootGrows(a, b - 1);
    }
  }

  /** Multibits with more keys are no smaller. */
  lemma MmbitSizeGrows(a: nat, b: nat)
    requires a <= b
    ensures MmbitSize(a) <= MmbitSize(b)
  {
    if !IsFlat(b) {
      LevelHasRoom(b, 0);
      if !IsFlat(a) {
        LevelHasRoom(b, MaxLevel(b));
        LevelHasRoom(a, MaxLevel(b));
        RootGrows(MaxLevel(a), MaxLevel(b));
      } else {
        RootGrows(1, MaxLevel(b));
      }
    }
  }

  lemma FatbitSizeGrows(a: nat, b: nat)
    requires a <= b
    ensures FatbitSize(a) <= FatbitSize(b)
  {
    hide MmbitSize;
    MmbitSizeGrows(a, b);
  }

  /** The block above j, so many levels up. */
  function Above(j: nat, up: nat): nat
    decreases up
  {
    if up == 0 then j else Above(j / 64, up - 1)
  }

  lemma {:induction false} AboveBound(j: nat, l: nat, up: nat)
    requires up <= l && j < Pow64(l)
    ensures Above(j, up) < Pow64(l - up)
    decreases up
  {
    if up > 0 {
      AboveBound(j / 64, l - 1, up - 1);
    }
  }

  lemma {:induction false} LevelsEnd(l: nat, max: nat)
    requires l < max
    ensures Root(l) + Pow64(l) <= Root(max)
    decreases max
  {
    if l < max - 1 {
      LevelsEnd(l, max - 1);
    }
  }

  /** Every block on the way to a key lies inside the size. */
  lemma KeyInside(total: nat, k: nat, l: nat)
    requires !IsFlat(total) && k < total && l <= MaxLevel(total)
    ensures BLOCK * Index(Node(l, Above(k / 64, MaxLevel(total) - l))) + BLOCK <= MmbitSize(total)
  {
    var max := MaxLevel(total);
    LevelHasRoom(total, max);
    if l < max {
      AboveBound(k / 64, max, max - l);
      LevelsEnd(l, max);
    }
  }

  /** And no smaller size would do for the last key. */
  lemma LastKeyEnds(total: nat)
    requires !IsFlat(total)
    ensures BLOCK * Index(Node(MaxLevel(total), (total - 1) / 64)) + BLOCK == MmbitSize(total)
  {
  }

  /** The size in bytes, or nothing when there are too many keys. */
  method ComputeMmbitSize(totalBits: nat) returns (size: Option<nat>)
    ensures size == if totalBits > 0x8000_0000 then None else Some(MmbitSize(totalBits))
    ensures size.Some? ==> size.value <= 0xFFFF_FFFF
  {
    if totalBits > MAX_BITS {
      return None;
    }
    if totalBits <= FLAT_MAX_BITS {
      return Some((totalBits + 7) / 8);
    }
    var currentLevel, total := 1, 0;
    ghost var l: nat := 0;
    LevelHasRoom(totalBits, 0);
    while currentLevel * 64 < totalBits
      invariant currentLevel == Pow64(l) && total == Root(l) && l <= MaxLevel(totalBits)
      invariant currentLevel >= 1
      decreases totalBits - currentLevel
    {
      LevelHasRoom(totalBits, l);
      total := total + currentLevel;
      currentLevel := currentLevel * 64;
      l := l + 1;
    }
    LevelHasRoom(totalBits, l);
    FewBlocks(totalBits);
    total := total + (totalBits + 63) / 64;
    return Some(total * BLOCK);
  }

  /** The cast to 32 bits loses nothing. */
  lemma FewBlocks(total: nat)
    requires !IsFlat(total) && total <= MAX_BITS
    ensures MmbitSize(total) <= 0xFFFF_FFFF
  {
    assert Pow64(5) == 0x4000_0000;
    LevelHasRoom(total, 5);
    RootGrows(MaxLevel(total), 5);
    assert Root(5) == 0x104_1041;
  }

  method ComputeFatbitSize(totalBits: nat) returns (size: Option<nat>)
    ensures size == if totalBits > 0x8000_0000 then None else Some(FatbitSize(totalBits))
    ensures size.Some? ==> size.value >= 32 && (size.value > 32 ==> size.value == MmbitSize(totalBits))
  {
    size := ComputeMmbitSize(totalBits);
    if size.Some? && size.value < FATBIT {
      size := Some(FATBIT);
    }
  }
}
