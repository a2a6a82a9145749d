/** Bitwise operations on unsigned words, with the width written out. */
module Bits {

  function Pow2(k: nat): (p: nat)
    ensures p >= 1
  {
    if k == 0 then 1 else 2 * Pow2(k - 1)
  }

  predicate Bit(x: nat, k: nat) {
    if k == 0 then x % 2 == 1 else Bit(x / 2, k - 1)
  }

  function And(a: nat, b: nat): nat {
    if a == 0 || b == 0 then 0
    else 2 * And(a / 2, b / 2) + (if a % 2 == 1 && b % 2 == 1 then 1 else 0)
  }

  function Or(a: nat, b: nat): nat {
    if a == 0 && b == 0 then 0
    else 2 * Or(a / 2, b / 2) + (if a % 2 == 1 || b % 2 == 1 then 1 else 0)
  }

  /** The complement in w bits. */
  function Not(a: nat, w: nat): nat {
    if w == 0 then 0 else 2 * Not(a / 2, w - 1) + (1 - a % 2)
  }

  /** Two's complement negation in w bits. */
  function Neg(a: nat, w: nat): nat
    requires a < Pow2(w)
  {
    if a == 0 then 0 else Pow2(w) - a
  }

  /** The sum of two w-bit words, the carry out of the top bit dropped. */
  function Add(a: nat, b: nat, w: nat): nat
    requires a < Pow2(w) && b < Pow2(w)
  {
    if a + b < Pow2(w) then a + b else a + b - Pow2(w)
  }

  lemma {:induction false} BitOfZero(k: nat)
    ensures !Bit(0, k)
  {
    if k > 0 { BitOfZero(k - 1); }
  }

  lemma {:induction false} BitAnd(a: nat, b: nat, k: nat)
    ensures Bit(And(a, b), k) <==> Bit(a, k) && Bit(b, k)
  {
    if a == 0 || b == 0 {
      BitOfZero(k);
    } else if k > 0 {
      BitAnd(a / 2, b / 2, k - 1);
    }
  }

  lemma {:induction false} BitOr(a: nat, b: nat, k: nat)
    ensures Bit(Or(a, b), k) <==> Bit(a, k) || Bit(b, k)
  {
    if a == 0 && b == 0 {
      BitOfZero(k);
    } else if k > 0 {
      BitOr(a / 2, b / 2, k - 1);
    }
  }

  lemma {:induction false} BitNot(a: nat, w: nat, k: nat)
    ensures Bit(Not(a, w), k) <==> k < w && !Bit(a, k)
  {
    if w == 0 {
      BitOfZero(k);
    } else {
      var x, x' := Not(a, w), Not(a / 2, w - 1);
      assert x / 2 == x' && x % 2 == 1 - a % 2;
      if k > 0 {
        BitNot(a / 2, w - 1, k - 1);
      }
    }
  }

  lemma {:induction false} BitPow2(j: nat, k: nat)
    ensures Bit(Pow2(j), k) <==> j == k
  {
    if j == 0 && k > 0 {
      BitOfZero(k - 1);
    } else if j > 0 && k > 0 {
      BitPow2(j - 1, k - 1);
    }
  }

  lemma {:induction false} BitHigh(x: nat, w: nat, k: nat)
    requires x < Pow2(w) && k >= w
    ensures !Bit(x, k)
  {
    if w == 0 {
      BitOfZero(k);
    } else {
      BitHigh(x / 2, w - 1, k - 1);
    }
  }

  /** A word is below 2^w when no bit from w on is set. */
  lemma {:induction false} BoundedByBits(x: nat, w: nat)
    requires forall k: nat :: k >= w ==> !Bit(x, k)
    ensures x < Pow2(w)
  {
    if w == 0 {
      HighBitExists(x);
    } else {
      forall k: nat | k >= w - 1 ensures !Bit(x / 2, k) {
        assert !Bit(x, k + 1);
      }
      BoundedByBits(x / 2, w - 1);
    }
  }

  lemma {:induction false} HighBitExists(x: nat)
    ensures x > 0 ==> exists k: nat :: Bit(x, k)
  {
    if x > 1 {
      HighBitExists(x / 2);
      var k: nat :| Bit(x / 2, k);
      assert Bit(x, k + 1);
    } else if x == 1 {
      assert Bit(x, 0);
    }
  }

  /** Words are equal when their bits are. */
  lemma {:induction false} Extensional(a: nat, b: nat)
    requires forall k: nat :: Bit(a, k) == Bit(b, k)
    ensures a == b
    decreases a + b
  {
    if a + b > 0 {
      assert Bit(a, 0) == Bit(b, 0);
      forall k: nat ensures Bit(a / 2, k) == Bit(b / 2, k) {
        assert Bit(a, k + 1) == Bit(b, k + 1);
      }
      Extensional(a / 2, b / 2);
    }
  }

  ghost predicate SubsetOf(x: nat, m: nat) {
    And(x, m) == x
  }

  lemma SubsetBit(x: nat, m: nat, k: nat)
    requires SubsetOf(x, m) && Bit(x, k)
    ensures Bit(m, k)
  {
    BitAnd(x, m, k);
  }

  lemma SubsetByBits(x: nat, m: nat)
    requires forall k: nat :: Bit(x, k) ==> Bit(m, k)
    ensures SubsetOf(x, m)
  {
    forall k: nat ensures Bit(And(x, m), k) == Bit(x, k) {
      BitAnd(x, m, k);
    }
    Extensional(And(x, m), x);
  }

  lemma {:induction false} NotValue(a: nat, w: nat)
    requires a < Pow2(w)
    ensures Not(a, w) == Pow2(w) - 1 - a
  {
    if w > 0 {
      NotValue(a / 2, w - 1);
    }
  }

  lemma {:induction false} AndNotSelf(a: nat, w: nat)
    ensures And(a, Not(a, w)) == 0
  {
    if w > 0 && a > 0 {
      AndNotSelf(a / 2, w - 1);
    }
  }

  lemma {:induction false} AndBound(a: nat, b: nat)
    ensures And(a, b) <= a && And(a, b) <= b
  {
    if a > 0 && b > 0 {
      AndBound(a / 2, b / 2);
    }
  }

  lemma {:induction false} BitShift(x: nat, s: nat, k: nat)
    ensures Bit(x * Pow2(s), k) <==> k >= s && Bit(x, k - s)
  {
    if s > 0 {
      var y := x * Pow2(s - 1);
      assert x * Pow2(s) == 2 * y;
      if k > 0 {
        BitShift(x, s - 1, k - 1);
      }
    }
  }

  /** Bit k is the binary digit of weight 2^k. */
  lemma {:induction false} BitIsDigit(x: nat, k: nat)
    ensures Bit(x, k) <==> x / Pow2(k) % 2 == 1
  {
    if k > 0 {
      BitIsDigit(x / 2, k - 1);
      HalveFirst(x, Pow2(k - 1));
    }
  }

  lemma HalveFirst(x: nat, n: nat)
    requires n > 0
    ensures x / 2 / n == x / (2 * n)
  {
    var q, r := x / 2 / n, x / 2 % n;
    assert x / 2 == n * q + r;
    assert x == 2 * n * q + (2 * r + x % 2);
    Quotient(x, 2 * n, q, 2 * r + x % 2);
  }

  lemma Multiples(n: int, z: int)
    requires n >= 0
    ensures z >= 1 ==> n * z >= n
    ensures z <= -1 ==> n * z <= -n
  {
  }

  lemma Quotient(x: nat, n: nat, q: nat, r: nat)
    requires x == n * q + r && r < n
    ensures x / n == q
  {
    var z := x / n - q;
    assert n * (x / n) <= x < n * (x / n) + n;
    assert n * (x / n) == n * q + n * z;
    Multiples(n, z);
  }

  /** The word with the w lowest bits set. */
  function Ones(w: nat): nat { Pow2(w) - 1 }

  lemma {:induction false} BitOnes(w: nat, k: nat)
    ensures Bit(Ones(w), k) <==> k < w
  {
    if w == 0 {
      BitOfZero(k);
    } else {
      assert Ones(w) == 2 * Ones(w - 1) + 1;
      if k > 0 { BitOnes(w - 1, k - 1); }
    }
  }

  /** The low r bits of x under the remaining bits of c. */
  function Splice(c: nat, x: nat, r: nat): nat {
    if r == 0 then c else 2 * Splice(c / 2, x / 2, r - 1) + x % 2
  }

  lemma {:induction false} BitSplice(c: nat, x: nat, r: nat, k: nat)
    ensures Bit(Splice(c, x, r), k) == if k < r then Bit(x, k) else Bit(c, k)
  {
    if r > 0 && k > 0 {
      BitSplice(c / 2, x / 2, r - 1, k - 1);
    }
  }

  lemma {:induction false} SpliceBound(c: nat, x: nat, r: nat, w: nat)
    requires c < Pow2(w) && r <= w
    ensures Splice(c, x, r) < Pow2(w)
  {
    if r > 0 {
      SpliceBound(c / 2, x / 2, r - 1, w - 1);
    }
  }

  lemma {:induction false} Pow2Increases(a: nat, b: nat)
    requires a <= b
    ensures Pow2(a) <= Pow2(b)
    decreases b
  {
    if a < b { Pow2Increases(a, b - 1); }
  }

  /** A word made of a high part above s low bits. */
  lemma {:induction false} BitJoin(h: nat, l: nat, s: nat, k: nat)
    requires l < Pow2(s)
    ensures Bit(h * Pow2(s) + l, k) == if k < s then Bit(l, k) else Bit(h, k - s)
  {
    if s > 0 {
      var z := h * Pow2(s - 1);
      assert h * Pow2(s) == 2 * z;
      assert (2 * z + l) / 2 == z + l / 2;
      if k > 0 {
        BitJoin(h, l / 2, s - 1, k - 1);
      }
    }
  }

  /** Adding 2^j to a word whose bit j is clear sets that bit and no other. */
  lemma {:induction false} BitAddPow2(x: nat, j: nat, k: nat)
    requires !Bit(x, j)
    ensures Bit(x + Pow2(j), k) <==> k == j || Bit(x, k)
  {
    if j > 0 {
      var p := Pow2(j - 1);
      assert (x + 2 * p) / 2 == x / 2 + p;
      if k > 0 {
        BitAddPow2(x / 2, j - 1, k - 1);
      }
    }
  }
}
