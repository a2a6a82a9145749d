/** Enumerating the subsets of a bit mask by carrying through the bits outside it. */
module SubsetWalk {
  import opened Bits

  /** The step of the enumeration in w-bit words: add at the lowest bit of dc, with every bit
      outside dc set so that the carry runs through them. */
  function Next(dc: nat, v: nat, w: nat): nat
    requires dc < Pow2(w) && v < Pow2(w)
  {
    AndBound(dc, Neg(dc, w));
    Or(Add(v, And(dc, Neg(dc, w)), w), Not(dc, w))
  }

  /** The successor of the subset b of dc in numeric order; the empty set follows dc itself. */
  function Successor(dc: nat, b: nat): nat {
    if dc == 0 then 0
    else if dc % 2 == 1 && b % 2 == 0 then b + 1
    else 2 * Successor(dc / 2, b / 2)
  }

  /** The lowest bit of dc. */
  function Lowest(dc: nat): nat {
    if dc == 0 then 0 else if dc % 2 == 1 then 1 else 2 * Lowest(dc / 2)
  }

  lemma AndStep(a: nat, b: nat)
    ensures And(a, b) == 2 * And(a / 2, b / 2) + (if a % 2 == 1 && b % 2 == 1 then 1 else 0)
  {
  }

  lemma {:induction false} AndNegIsLowest(dc: nat, w: nat)
    requires dc < Pow2(w)
    ensures And(dc, Neg(dc, w)) == Lowest(dc)
  {
    if w > 0 && dc > 0 {
      var p := Pow2(w - 1);
      var neg := 2 * p - dc;
      AndStep(dc, neg);
      if dc % 2 == 1 {
        NotValue(dc / 2, w - 1);
        AndNotSelf(dc / 2, w - 1);
        assert neg / 2 == p - 1 - dc / 2;
      } else {
        AndNegIsLowest(dc / 2, w - 1);
        assert neg / 2 == p - dc / 2;
      }
    }
  }

  lemma {:induction false} OrBound(a: nat, b: nat, w: nat)
    requires a < Pow2(w) && b < Pow2(w)
    ensures Or(a, b) < Pow2(w)
  {
    if w > 0 && (a > 0 || b > 0) {
      OrBound(a / 2, b / 2, w - 1);
    }
  }

  lemma OrStep(a: nat, b: nat)
    ensures Or(a, b) == 2 * Or(a / 2, b / 2) + (if a % 2 == 1 || b % 2 == 1 then 1 else 0)
  {
  }

  /** The cursor at subset b: every bit outside dc is set. */
  function Cursor(dc: nat, b: nat, w: nat): nat { Or(b, Not(dc, w)) }

  lemma CursorBound(dc: nat, b: nat, w: nat)
    requires dc < Pow2(w) && SubsetOf(b, dc)
    ensures Cursor(dc, b, w) < Pow2(w)
  {
    AndBound(b, dc);
    NotBelow(dc, w);
    OrBound(b, Not(dc, w), w);
  }

  /** The cursor, one bit at a time. */
  lemma CursorStep(dc: nat, b: nat, w: nat)
    requires w > 0
    ensures Cursor(dc, b, w) == 2 * Cursor(dc / 2, b / 2, w - 1) + (if b % 2 == 1 || dc % 2 == 0 then 1 else 0)
  {
    OrStep(b, Not(dc, w));
  }

  lemma CursorZero()
    ensures Cursor(0, 0, 0) == 0
  {
  }

  /** Adding one at the bottom of a cursor and refilling: the subset moves to its successor. */
  lemma {:induction false} IncrementCursor(dc: nat, b: nat, w: nat)
    requires dc < Pow2(w) && SubsetOf(b, dc) && Cursor(dc, b, w) < Pow2(w)
    ensures 1 < Pow2(w) ==> Cursor(dc, Add(Cursor(dc, b, w), 1, w), w) == Cursor(dc, Successor(dc, b), w)
  {
    hide Or, Not, And;
    if w > 0 {
      SubsetStep(b, dc);
      CursorBound(dc / 2, b / 2, w - 1);
      CursorStep(dc, b, w);
      var v, v' := Cursor(dc, b, w), Cursor(dc / 2, b / 2, w - 1);
      CursorStep(dc, Add(v, 1, w), w);
      CursorStep(dc, Successor(dc, b), w);
      IncrementCursor(dc / 2, b / 2, w - 1);
      if dc % 2 == 1 && b % 2 == 0 {
        OrAbsorbs(b / 2, Not(dc / 2, w - 1));
        assert Add(v, 1, w) / 2 == v';
      } else {
        assert v == 2 * v' + 1;
        if w == 1 {
          CursorZero();
        }
      }
    }
  }

  lemma {:induction false} NotBelow(a: nat, w: nat)
    ensures Not(a, w) < Pow2(w)
  {
    if w > 0 { NotBelow(a / 2, w - 1); }
  }

  lemma SubsetStep(b: nat, dc: nat)
    requires SubsetOf(b, dc)
    ensures SubsetOf(b / 2, dc / 2) && b % 2 <= dc % 2
  {
  }

  lemma {:induction false} OrAbsorbs(a: nat, b: nat)
    ensures Or(Or(a, b), b) == Or(a, b)
  {
    if a > 0 || b > 0 {
      OrAbsorbs(a / 2, b / 2);
    }
  }

  lemma {:induction false} LowestBound(dc: nat)
    ensures Lowest(dc) <= dc
  {
    if dc > 0 && dc % 2 == 0 { LowestBound(dc / 2); }
  }

  /** Adding at the lowest bit of dc instead of at the bottom makes no difference. */
  lemma {:induction false} AddLowest(dc: nat, b: nat, w: nat)
    requires dc < Pow2(w) && SubsetOf(b, dc) && Cursor(dc, b, w) < Pow2(w) && Lowest(dc) < Pow2(w)
    ensures Cursor(dc, Add(Cursor(dc, b, w), Lowest(dc), w), w) == Cursor(dc, Successor(dc, b), w)
  {
    if dc == 0 {
      OrAbsorbs(b, Not(dc, w));
    } else if dc % 2 == 1 {
      IncrementCursor(dc, b, w);
    } else {
      SubsetStep(b, dc);
      CursorBound(dc / 2, b / 2, w - 1);
      LowestBound(dc / 2);
      CursorStep(dc, b, w);
      var v, v', low' := Cursor(dc, b, w), Cursor(dc / 2, b / 2, w - 1), Lowest(dc / 2);
      assert Add(v, 2 * low', w) == 2 * Add(v', low', w - 1) + 1;
      CursorStep(dc, Add(v, 2 * low', w), w);
      CursorStep(dc, Successor(dc, b), w);
      AddLowest(dc / 2, b / 2, w - 1);
    }
  }

  /** One step of the enumeration. */
  lemma NextIsSuccessor(dc: nat, b: nat, w: nat)
    requires dc < Pow2(w) && SubsetOf(b, dc)
    ensures Cursor(dc, b, w) < Pow2(w)
    ensures Next(dc, Cursor(dc, b, w), w) == Cursor(dc, Successor(dc, b), w)
  {
    CursorBound(dc, b, w);
    LowestBound(dc);
    AndNegIsLowest(dc, w);
    AddLowest(dc, b, w);
  }

  lemma {:induction false} CursorSubset(dc: nat, b: nat, w: nat)
    requires dc < Pow2(w) && SubsetOf(b, dc)
    ensures And(Cursor(dc, b, w), dc) == b
  {
    if w > 0 {
      SubsetStep(b, dc);
      CursorStep(dc, b, w);
      AndStep(Cursor(dc, b, w), dc);
      CursorSubset(dc / 2, b / 2, w - 1);
    } else {
      AndBound(b, dc);
    }
  }

  lemma {:induction false} CursorOfNone(dc: nat, w: nat)
    ensures Cursor(dc, 0, w) == Not(dc, w)
    ensures SubsetOf(0, dc)
  {
    if w > 0 {
      CursorStep(dc, 0, w);
      CursorOfNone(dc / 2, w - 1);
    }
  }

  /** The successor is a subset; it is larger, unless the walk wraps around from dc to the empty set. */
  lemma {:induction false} SuccessorUp(dc: nat, b: nat)
    requires SubsetOf(b, dc)
    ensures SubsetOf(Successor(dc, b), dc)
    ensures b < dc <==> b != dc
    ensures b != dc ==> b < Successor(dc, b) <= dc
    ensures b == dc ==> Successor(dc, b) == 0
  {
    if dc > 0 {
      SubsetStep(b, dc);
      SuccessorUp(dc / 2, b / 2);
      AndStep(Successor(dc, b), dc);
      if dc % 2 == 1 && b % 2 == 0 {
        assert Successor(dc, b) / 2 == b / 2;
      }
    } else {
      AndBound(b, dc);
    }
  }

  /** No subset lies strictly between two consecutive ones. */
  lemma {:induction false} SuccessorLeast(dc: nat, b: nat, x: nat)
    requires SubsetOf(b, dc) && SubsetOf(x, dc) && b < x
    ensures Successor(dc, b) <= x
  {
    if dc > 0 {
      SubsetStep(b, dc);
      SubsetStep(x, dc);
      if !(dc % 2 == 1 && b % 2 == 0) {
        SuccessorLeast(dc / 2, b / 2, x / 2);
      }
    }
  }

  ghost predicate StrictlyIncreasing(s: seq<nat>) {
    forall i, j :: 0 <= i < j < |s| ==> s[i] < s[j]
  }

  /** The loop as it stands, in w-bit words: it ends, and visits each subset of dc exactly once. */
  method Subsets(dc: nat, w: nat) returns (visited: seq<nat>)
    requires dc < Pow2(w)
    ensures StrictlyIncreasing(visited)
    ensures forall x: nat :: x in visited <==> SubsetOf(x, dc)
  {
    hide Next, SubsetOf, Cursor, Successor;
    visited := [];
    ghost var b: nat := 0;
    CursorOfNone(dc, w);
    NextIsSuccessor(dc, 0, w);
    var v := Not(dc, w);
    var more := true;
    while more
      invariant SubsetOf(b, dc) && v == Cursor(dc, b, w) && v < Pow2(w)
      invariant StrictlyIncreasing(visited)
      invariant forall x: nat :: x in visited ==> SubsetOf(x, dc)
      invariant more ==> forall x: nat :: SubsetOf(x, dc) ==> (x in visited <==> x < b)
      invariant !more ==> forall x: nat :: SubsetOf(x, dc) ==> x in visited
      decreases more, dc - b
    {
      CursorSubset(dc, b, w);
      NextIsSuccessor(dc, b, w);
      SuccessorUp(dc, b);
      var b2 := And(v, dc);
      ghost var before := visited;
      assert forall i :: 0 <= i < |before| ==> before[i] in before;
      visited := visited + [b2];
      assert forall x: nat :: x in visited <==> x in before || x == b2;
      v := Next(dc, v, w);
      more := v != Not(dc, w);
      WrapsAtEnd(dc, b, w);
      ghost var b' := Successor(dc, b);
      NextIsSuccessor(dc, b', w);
      forall x: nat | SubsetOf(x, dc) ensures b < x ==> more && b' <= x {
        SuccessorUp(dc, x);
        if b < x { SuccessorLeast(dc, b, x); }
        AndBoundOf(x, dc);
      }
      b := b';
    }
  }

  lemma AndBoundOf(x: nat, dc: nat)
    requires SubsetOf(x, dc)
    ensures x <= dc
  {
    AndBound(x, dc);
  }

  /** The walk comes back to its first cursor exactly after dc itself. */
  lemma WrapsAtEnd(dc: nat, b: nat, w: nat)
    requires dc < Pow2(w) && SubsetOf(b, dc)
    ensures Cursor(dc, Successor(dc, b), w) == Not(dc, w) <==> b == dc
  {
    hide Cursor, Successor;
    SuccessorUp(dc, b);
    CursorSubset(dc, Successor(dc, b), w);
    CursorOfNone(dc, w);
    CursorSubset(dc, 0, w);
    AndBoundOf(b, dc);
  }
}
