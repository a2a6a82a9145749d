/** Literals of the FDR compiler, their case rules and the order in which they are assigned. */
module Literals {

  import opened Common

  datatype Literal = Literal(s: seq<Byte>, nocase: bool)

  function ToUpper(c: Byte): Byte {
    if 0x61 <= c <= 0x7a then c - 0x20 else c
  }

  function Upper(s: seq<Byte>): (u: seq<Byte>)
    ensures |u| == |s| && forall i :: 0 <= i < |s| ==> u[i] == ToUpper(s[i])
  {
    seq(|s|, i requires 0 <= i < |s| => ToUpper(s[i]))
  }

  /** Equality as `cmp` decides it: caselessly, both operands are folded. */
  predicate CmpEqual(a: seq<Byte>, b: seq<Byte>, nocase: bool) {
    if nocase then Upper(a) == Upper(b) else a == b
  }

  /** The last caseless literal is `a` but for case. */
  predicate FoldsTo(a: Literal, last: Option<Literal>) {
    last.Some? && |a.s| == |last.value.s| && CmpEqual(a.s, last.value.s, true)
  }

  predicate IsEquivLit(a: Literal, b: Literal, last: Option<Literal>) {
    |a.s| == |b.s| && CmpEqual(a.s, b.s, FoldsTo(a, last))
  }

  /** Literals that differ in case at most count as equivalent if and only if they do not differ at all, or the last
      caseless literal is theirs but for case too. */
  lemma EquivBesidesCase(a: Literal, b: Literal, last: Option<Literal>)
    ensures IsEquivLit(a, b, last) <==>
            Upper(a.s) == Upper(b.s) && (a.s == b.s || (last.Some? && Upper(last.value.s) == Upper(a.s)))
  {
  }

  lemma EquivOfSameString(a: Literal, b: Literal, last: Option<Literal>)
    requires a.s == b.s
    ensures IsEquivLit(a, b, last)
  {
  }

  /** Bytes are compared as signed characters. */
  function Signed(c: Byte): int { if c < 128 then c else c - 256 }

  /** Three-way comparison of equally long strings from the last byte backwards. */
  function RevCompare(a: seq<Byte>, b: seq<Byte>): (r: int)
    requires |a| == |b|
    ensures -1 <= r <= 1
  {
    if a == [] then 0
    else
      var x, y := a[|a| - 1], b[|b| - 1];
      if x != y then (if Signed(x) < Signed(y) then -1 else 1)
      else RevCompare(a[..|a| - 1], b[..|b| - 1])
  }

  /** The sort predicate: by length, then by reversed string, caseless variants first. */
  predicate Before(a: Literal, b: Literal) {
    if |a.s| != |b.s| then |a.s| < |b.s|
    else if RevCompare(a.s, b.s) != 0 then RevCompare(a.s, b.s) < 0
    else a.nocase && !b.nocase
  }

  lemma {:induction false} RevCompareZero(a: seq<Byte>, b: seq<Byte>)
    requires |a| == |b|
    ensures RevCompare(a, b) == 0 <==> a == b
    ensures RevCompare(a, b) == -RevCompare(b, a)
  {
    if a != [] {
      var x, y := a[|a| - 1], b[|b| - 1];
      assert a == a[..|a| - 1] + [x] && b == b[..|b| - 1] + [y];
      RevCompareZero(a[..|a| - 1], b[..|b| - 1]);
    }
  }

  /** At i the strings differ, behind it they do not. */
  ghost predicate LastDifference(a: seq<Byte>, b: seq<Byte>, i: nat)
    requires |a| == |b|
  {
    i < |a| && a[i] != b[i] && forall j :: i < j < |a| ==> a[j] == b[j]
  }

  /** The last byte in which the strings differ decides, as a signed character. */
  lemma {:induction false} RevCompareAt(a: seq<Byte>, b: seq<Byte>, i: nat)
    requires |a| == |b| && LastDifference(a, b, i)
    ensures RevCompare(a, b) < 0 <==> (a[i] as int + 128) % 256 < (b[i] as int + 128) % 256
    decreases |a|
  {
    if i < |a| - 1 {
      RevCompareAt(a[..|a| - 1], b[..|b| - 1], i);
    }
  }

  /** The sort order: shorter first; then by the last byte in which they differ; then caseless first. */
  lemma BeforeIs(a: Literal, b: Literal)
    ensures |a.s| != |b.s| ==> (Before(a, b) <==> |a.s| < |b.s|)
    ensures a.s == b.s ==> (Before(a, b) <==> a.nocase && !b.nocase)
    ensures |a.s| == |b.s| ==>
              forall i: nat :: LastDifference(a.s, b.s, i) ==>
                (Before(a, b) <==> (a.s[i] as int + 128) % 256 < (b.s[i] as int + 128) % 256)
  {
    if |a.s| == |b.s| {
      RevCompareZero(a.s, b.s);
      forall i: nat | LastDifference(a.s, b.s, i)
        ensures Before(a, b) <==> (a.s[i] as int + 128) % 256 < (b.s[i] as int + 128) % 256
      {
        RevCompareAt(a.s, b.s, i);
      }
    }
  }

  lemma {:induction false} RevCompareTransitive(a: seq<Byte>, b: seq<Byte>, c: seq<Byte>)
    requires |a| == |b| == |c|
    requires RevCompare(a, b) <= 0 && RevCompare(b, c) <= 0
    ensures RevCompare(a, c) <= 0
    ensures RevCompare(a, c) == 0 ==> RevCompare(a, b) == 0
  {
    if a != [] {
      var n := |a| - 1;
      if a[n] == b[n] == c[n] {
        RevCompareTransitive(a[..n], b[..n], c[..n]);
      }
    }
  }

  /** `b` may follow `a` in a sorted list. */
  predicate Ordered(a: Literal, b: Literal) { !Before(b, a) }

  lemma OrderedTransitive(a: Literal, b: Literal, c: Literal)
    requires Ordered(a, b) && Ordered(b, c)
    ensures Ordered(a, c)
  {
    if |a.s| == |b.s| == |c.s| {
      RevCompareZero(a.s, b.s);
      RevCompareZero(b.s, c.s);
      RevCompareZero(a.s, c.s);
      RevCompareTransitive(a.s, b.s, c.s);
    }
  }

  ghost predicate Sorted(ls: seq<Literal>) {
    forall i, j :: 0 <= i < j < |ls| ==> Ordered(ls[i], ls[j])
  }

  /** Insert after every literal that may precede it. */
  function Insert(ls: seq<Literal>, x: Literal): (r: seq<Literal>)
    ensures multiset(r) == multiset(ls) + multiset{x}
    ensures Sorted(ls) ==> Sorted(r)
    decreases |ls|, 1
  {
    if ls == [] then [x]
    else
      var n := |ls| - 1;
      assert ls == ls[..n] + [ls[n]];
      if Before(x, ls[n]) then
        var r := Insert(ls[..n], x) + [ls[n]];
        assert Sorted(ls) ==> Sorted(r) by { InsertSorted(ls, x); }
        r
      else
        assert Sorted(ls) ==> Sorted(ls + [x]) by { AppendSorted(ls, x); }
        ls + [x]
  }

  lemma AppendSorted(ls: seq<Literal>, x: Literal)
    requires ls != [] && Ordered(ls[|ls| - 1], x)
    ensures Sorted(ls) ==> Sorted(ls + [x])
  {
    if Sorted(ls) {
      forall i | 0 <= i < |ls| ensures Ordered(ls[i], x) {
        if i < |ls| - 1 {
          OrderedTransitive(ls[i], ls[|ls| - 1], x);
        }
      }
    }
  }

  lemma InsertSorted(ls: seq<Literal>, x: Literal)
    requires ls != [] && Before(x, ls[|ls| - 1])
    ensures Sorted(ls) ==> Sorted(Insert(ls[..|ls| - 1], x) + [ls[|ls| - 1]])
    decreases |ls|, 0
  {
    if Sorted(ls) {
      var n := |ls| - 1;
      var r := Insert(ls[..n], x);
      forall i | 0 <= i < |r| ensures Ordered(r[i], ls[n]) {
        assert r[i] in multiset(r);
        assert r[i] in multiset(ls[..n]) || r[i] == x;
        if r[i] == x {
          BeforeAsymmetric(x, ls[n]);
        } else {
          assert r[i] in ls[..n];
        }
      }
    }
  }

  lemma BeforeAsymmetric(a: Literal, b: Literal)
    ensures Before(a, b) ==> !Before(b, a)
  {
    if |a.s| == |b.s| {
      RevCompareZero(a.s, b.s);
    }
  }

  /** The list in assignment order; a stable sort. */
  function StableSort(ls: seq<Literal>): (r: seq<Literal>)
    ensures multiset(r) == multiset(ls) && Sorted(r)
  {
    if ls == [] then []
    else
      assert ls == ls[..|ls| - 1] + [ls[|ls| - 1]];
      Insert(StableSort(ls[..|ls| - 1]), ls[|ls| - 1])
  }

  /** In a sorted list, literals with equal strings are neighbours. */
  lemma SameStringContiguous(ls: seq<Literal>, i: nat, j: nat, k: nat)
    requires Sorted(ls) && i <= j <= k < |ls| && ls[i].s == ls[k].s
    ensures ls[j].s == ls[i].s
  {
    if i < j < k {
      assert |ls[i].s| == |ls[j].s|;
      RevCompareZero(ls[i].s, ls[j].s);
      RevCompareZero(ls[j].s, ls[k].s);
    }
  }

  lemma SortedByLength(ls: seq<Literal>, i: nat, j: nat)
    requires Sorted(ls) && i <= j < |ls|
    ensures |ls[i].s| <= |ls[j].s|
  {
    if i < j {
      assert Ordered(ls[i], ls[j]);
    }
  }
}
