/** What a literal demands of a table index at one position. */
module FdrMasks {
  import opened Common
  import opened Bits
  import opened Literals

  /** Domain sizes in use; an index then spans two text bytes. */
  predicate ValidDomain(bits: nat) { 9 <= bits <= 15 }

  /** Position pos - cnt, counted from the end of the literal, falls outside it. */
  predicate Outside(lit: Literal, pos: nat, cnt: nat) {
    pos < cnt || pos - cnt >= |lit.s|
  }

  function CharAt(lit: Literal, pos: nat, cnt: nat): Byte
    requires !Outside(lit, pos, cnt)
  {
    lit.s[|lit.s| - (pos - cnt) - 1]
  }

  /** A text byte that the literal accepts where it has the character c. */
  predicate Accepts(lit: Literal, c: Byte, y: Byte) {
    if lit.nocase then ToUpper(y) == ToUpper(c) else y == c
  }

  ghost predicate SameLow(x: nat, y: nat, r: nat) {
    forall k: nat :: k < r ==> Bit(x, k) == Bit(y, k)
  }

  /** Bits of text byte number cnt that reach the index. */
  function Kept(bits: nat, cnt: nat): nat
    requires ValidDomain(bits) && cnt < 2
  {
    if cnt == 0 then 8 else bits - 8
  }

  function ByteOf(i: nat, cnt: nat): nat
    requires cnt < 2
  {
    if cnt == 0 then i % 256 else i / 256
  }

  /** Byte number cnt of the index could come from a text byte that the literal accepts. */
  ghost predicate Fits(lit: Literal, bits: nat, pos: nat, i: nat, cnt: nat)
    requires ValidDomain(bits) && cnt < 2
  {
    Outside(lit, pos, cnt) ||
    exists y: Byte :: Accepts(lit, CharAt(lit, pos, cnt), y) && SameLow(ByteOf(i, cnt), y, Kept(bits, cnt))
  }

  /** The literal allows the table index i at position pos. */
  ghost predicate Compatible(lit: Literal, bits: nat, pos: nat, i: nat)
    requires ValidDomain(bits)
  {
    Fits(lit, bits, pos, i, 0) && Fits(lit, bits, pos, i, 1)
  }

  /** Caseless letters leave bit 5 open. */
  predicate CaseOpen(lit: Literal, c: Byte) { lit.nocase && IsAlpha(c) }

  function MaskByte(lit: Literal, bits: nat, pos: nat, cnt: nat): nat
    requires ValidDomain(bits) && cnt < 2
  {
    if Outside(lit, pos, cnt) then 0
    else
      var c := CharAt(lit, pos, cnt);
      var remainder := bits - cnt * 8;
      var m := if remainder < 8 then And(c, Ones(remainder)) else c;
      if CaseOpen(lit, c) then And(m, 0xdf) else m
  }

  function DontCareByte(lit: Literal, bits: nat, pos: nat, cnt: nat): nat
    requires ValidDomain(bits) && cnt < 2
  {
    if Outside(lit, pos, cnt) then 0xff
    else
      var c := CharAt(lit, pos, cnt);
      var remainder := bits - cnt * 8;
      var d := if remainder < 8 then Not(Ones(remainder), 8) else 0;
      if CaseOpen(lit, c) then Or(d, 0x20) else d
  }

  /** Both bytes, put in place and cut to the domain. */
  function MaskOf(lit: Literal, bits: nat, pos: nat): nat
    requires ValidDomain(bits)
  {
    And(Or(MaskByte(lit, bits, pos, 0), MaskByte(lit, bits, pos, 1) * Pow2(8)), Ones(bits))
  }

  function DontCaresOf(lit: Literal, bits: nat, pos: nat): nat
    requires ValidDomain(bits)
  {
    And(Or(DontCareByte(lit, bits, pos, 0), DontCareByte(lit, bits, pos, 1) * Pow2(8)), Ones(bits))
  }

  lemma CaseBits(k: nat)
    ensures Bit(0xdf, k) <==> k < 8 && k != 5
    ensures Bit(0x20, k) <==> k == 5
  {
    assert Pow2(5) == 0x20;
    BitPow2(5, k);
    assert Not(0x20, 8) == 0xdf by {
      assert Pow2(8) == 256;
      NotValue(0x20, 8);
    }
    BitNot(0x20, 8, k);
  }

  lemma BitMaskByte(lit: Literal, bits: nat, pos: nat, cnt: nat, k: nat)
    requires ValidDomain(bits) && cnt < 2 && k < Kept(bits, cnt)
    ensures Bit(MaskByte(lit, bits, pos, cnt), k) <==>
            !Outside(lit, pos, cnt) && Bit(CharAt(lit, pos, cnt), k) && !(CaseOpen(lit, CharAt(lit, pos, cnt)) && k == 5)
  {
    if Outside(lit, pos, cnt) {
      BitOfZero(k);
    } else {
      var c := CharAt(lit, pos, cnt);
      var r := bits - cnt * 8;
      BitAnd(c, Ones(r), k);
      BitOnes(r, k);
      BitAnd(if r < 8 then And(c, Ones(r)) else c, 0xdf, k);
      CaseBits(k);
    }
  }

  lemma BitDontCareByte(lit: Literal, bits: nat, pos: nat, cnt: nat, k: nat)
    requires ValidDomain(bits) && cnt < 2 && k < Kept(bits, cnt)
    ensures Bit(DontCareByte(lit, bits, pos, cnt), k) <==>
            Outside(lit, pos, cnt) || (CaseOpen(lit, CharAt(lit, pos, cnt)) && k == 5)
  {
    if Outside(lit, pos, cnt) {
      assert Pow2(8) == 256;
      BitOnes(8, k);
    } else {
      var r := bits - cnt * 8;
      BitOnes(r, k);
      BitNot(Ones(r), 8, k);
      BitOfZero(k);
      BitOr(if r < 8 then Not(Ones(r), 8) else 0, 0x20, k);
      CaseBits(k);
    }
  }

  lemma BitOfWord(lo: nat, hi: nat, bits: nat, k: nat)
    requires lo < 256
    ensures Bit(And(Or(lo, hi * Pow2(8)), Ones(bits)), k) <==> k < bits && if k < 8 then Bit(lo, k) else Bit(hi, k - 8)
  {
    BitAnd(Or(lo, hi * Pow2(8)), Ones(bits), k);
    BitOnes(bits, k);
    BitOr(lo, hi * Pow2(8), k);
    BitShift(hi, 8, k);
    if k >= 8 {
      assert Pow2(8) == 256;
      BitHigh(lo, 8, k);
    }
  }

  lemma MaskByteBound(lit: Literal, bits: nat, pos: nat, cnt: nat)
    requires ValidDomain(bits) && cnt < 2
    ensures MaskByte(lit, bits, pos, cnt) < 256
  {
    if !Outside(lit, pos, cnt) {
      var c := CharAt(lit, pos, cnt);
      var r := bits - cnt * 8;
      AndBound(c, Ones(r));
      AndBound(if r < 8 then And(c, Ones(r)) else c, 0xdf);
    }
  }

  lemma FirstDontCareByteBound(lit: Literal, bits: nat, pos: nat)
    requires ValidDomain(bits)
    ensures DontCareByte(lit, bits, pos, 0) < 256
  {
    assert Or(0, 0x20) == 0x20 by {
      forall k: nat ensures Bit(Or(0, 0x20), k) == Bit(0x20, k) { BitOr(0, 0x20, k); BitOfZero(k); }
      Extensional(Or(0, 0x20), 0x20);
    }
  }

  /** Clearing bit 5 takes away 32 when it was set. */
  lemma StripCase(y: Byte)
    ensures y == And(y, 0xdf) + if Bit(y, 5) then 0x20 else 0
    ensures forall k: nat :: Bit(And(y, 0xdf), k) <==> Bit(y, k) && k != 5
  {
    var w := And(y, 0xdf);
    forall k: nat ensures Bit(w, k) <==> Bit(y, k) && k != 5 {
      BitAnd(y, 0xdf, k);
      CaseBits(k);
      if k >= 8 {
        assert Pow2(8) == 256;
        BitHigh(y, 8, k);
      }
    }
    if Bit(y, 5) {
      assert Pow2(5) == 0x20;
      forall k: nat ensures Bit(w + 0x20, k) == Bit(y, k) {
        BitAddPow2(w, 5, k);
      }
      Extensional(w + 0x20, y);
    } else {
      Extensional(w, y);
    }
  }

  lemma BitFive(c: Byte)
    ensures Bit(c, 5) <==> (c / 32) % 2 == 1
  {
    assert Bit(c, 5) == Bit(c / 2, 4) == Bit(c / 4, 3) == Bit(c / 8, 2) == Bit(c / 16, 1) == Bit(c / 32, 0) by {
      assert c / 2 / 2 == c / 4 && c / 4 / 2 == c / 8 && c / 8 / 2 == c / 16 && c / 16 / 2 == c / 32;
    }
  }

  lemma AcceptsCaseless(c: Byte, y: Byte)
    requires IsAlpha(c)
    ensures ToUpper(y) == ToUpper(c) <==> And(y, 0xdf) == And(c, 0xdf)
  {
    hide And, Bit;
    StripCase(c);
    StripCase(y);
    BitFive(c);
    BitFive(y);
    CaseFolds(c, y, And(c, 0xdf), And(y, 0xdf));
  }

  lemma CaseFolds(c: Byte, y: Byte, c': nat, y': nat)
    requires IsAlpha(c) && c == c' + (if (c / 32) % 2 == 1 then 0x20 else 0)
    requires y == y' + if (y / 32) % 2 == 1 then 0x20 else 0
    ensures ToUpper(y) == ToUpper(c) <==> y' == c'
  {
    var cq, yq := c / 32, y / 32;
  }

  /** The low r bits of x agree with those of the character c, bit 5 of caseless letters aside. */
  ghost predicate BitsAgree(lit: Literal, c: Byte, x: nat, r: nat) {
    forall k: nat :: k < r ==> (CaseOpen(lit, c) && k == 5) || Bit(x, k) == Bit(c, k)
  }

  lemma NoHighBits(y: Byte, k: nat)
    requires k >= 8
    ensures !Bit(y, k)
  {
    assert Pow2(8) == 256;
    BitHigh(y, 8, k);
  }

  lemma AcceptsToBits(lit: Literal, c: Byte, y: Byte)
    requires Accepts(lit, c, y)
    ensures BitsAgree(lit, c, y, 8)
  {
    if CaseOpen(lit, c) {
      AcceptsCaseless(c, y);
      StripCase(c);
      StripCase(y);
      forall k: nat | k < 8 && k != 5 ensures Bit(y, k) == Bit(c, k) {
        assert Bit(And(y, 0xdf), k) == Bit(And(c, 0xdf), k);
      }
    } else {
      assert y == c;
    }
  }

  lemma BitsToAccepts(lit: Literal, c: Byte, y: Byte)
    requires BitsAgree(lit, c, y, 8)
    ensures Accepts(lit, c, y)
  {
    if CaseOpen(lit, c) {
      StripCase(c);
      StripCase(y);
      forall k: nat ensures Bit(And(y, 0xdf), k) == Bit(And(c, 0xdf), k) {
        if k >= 8 { NoHighBits(y, k); NoHighBits(c, k); }
      }
      Extensional(And(y, 0xdf), And(c, 0xdf));
      AcceptsCaseless(c, y);
    } else {
      forall k: nat ensures Bit(y, k) == Bit(c, k) {
        if k >= 8 { NoHighBits(y, k); NoHighBits(c, k); }
      }
      Extensional(y, c);
    }
  }

  /** A cut-off byte fits when the bits that are left agree. */
  lemma FitsByBits(lit: Literal, bits: nat, pos: nat, i: nat, cnt: nat)
    requires ValidDomain(bits) && cnt < 2
    ensures Fits(lit, bits, pos, i, cnt) <==>
            Outside(lit, pos, cnt) || BitsAgree(lit, CharAt(lit, pos, cnt), ByteOf(i, cnt), Kept(bits, cnt))
  {
    if !Outside(lit, pos, cnt) {
      var c, x, r := CharAt(lit, pos, cnt), ByteOf(i, cnt), Kept(bits, cnt);
      if Fits(lit, bits, pos, i, cnt) {
        var y: Byte :| Accepts(lit, c, y) && SameLow(x, y, r);
        AcceptsToBits(lit, c, y);
      }
      if BitsAgree(lit, c, x, r) {
        var y := FillIn(lit, c, x, r);
      }
    }
  }

  /** An accepted byte with the given low bits. */
  lemma FillIn(lit: Literal, c: Byte, x: nat, r: nat) returns (y: Byte)
    requires r <= 8 && BitsAgree(lit, c, x, r)
    ensures Accepts(lit, c, y) && SameLow(x, y, r)
  {
    assert Pow2(8) == 256;
    SpliceBound(c, x, r, 8);
    y := Splice(c, x, r);
    forall k: nat ensures Bit(y, k) == if k < r then Bit(x, k) else Bit(c, k) {
      BitSplice(c, x, r, k);
    }
    BitsToAccepts(lit, c, y);
  }

  lemma BitByteOf(i: nat, cnt: nat, k: nat)
    requires cnt < 2 && (cnt == 0 ==> k < 8)
    ensures Bit(ByteOf(i, cnt), k) == Bit(i, k + 8 * cnt)
  {
    assert Pow2(8) == 256;
    assert i == (i / 256) * 256 + i % 256;
    BitJoin(i / 256, i % 256, 8, k + 8 * cnt);
  }

  /** What bit k of the mask and of the don't-care mask says. */
  lemma BitsOfMasks(lit: Literal, bits: nat, pos: nat, k: nat)
    requires ValidDomain(bits) && k < bits
    ensures var cnt := k / 8;
            var open := Outside(lit, pos, cnt) || (CaseOpen(lit, CharAt(lit, pos, cnt)) && k % 8 == 5);
            && (Bit(DontCaresOf(lit, bits, pos), k) <==> open)
            && (Bit(MaskOf(lit, bits, pos), k) <==> !open && Bit(CharAt(lit, pos, cnt), k % 8))
  {
    hide Bit, MaskByte, DontCareByte, Outside, CaseOpen, CharAt;
    var cnt := k / 8;
    MaskByteBound(lit, bits, pos, 0);
    FirstDontCareByteBound(lit, bits, pos);
    BitOfWord(MaskByte(lit, bits, pos, 0), MaskByte(lit, bits, pos, 1), bits, k);
    BitOfWord(DontCareByte(lit, bits, pos, 0), DontCareByte(lit, bits, pos, 1), bits, k);
    BitMaskByte(lit, bits, pos, cnt, k % 8);
    BitDontCareByte(lit, bits, pos, cnt, k % 8);
  }

  /** Agreement of an index with a mask outside the don't-care bits. */
  ghost predicate Agrees(i: nat, mask: nat, dc: nat, bits: nat) {
    forall k: nat :: k < bits ==> Bit(dc, k) || Bit(i, k) == Bit(mask, k)
  }

  lemma CompatibleToAgreement(lit: Literal, bits: nat, pos: nat, i: nat)
    requires ValidDomain(bits) && Compatible(lit, bits, pos, i)
    ensures Agrees(i, MaskOf(lit, bits, pos), DontCaresOf(lit, bits, pos), bits)
  {
    hide MaskOf, DontCaresOf, Fits;
    var m, d := MaskOf(lit, bits, pos), DontCaresOf(lit, bits, pos);
    FitsByBits(lit, bits, pos, i, 0);
    FitsByBits(lit, bits, pos, i, 1);
    forall k: nat | k < bits ensures Bit(d, k) || Bit(i, k) == Bit(m, k) {
      var cnt := k / 8;
      BitsOfMasks(lit, bits, pos, k);
      BitByteOf(i, cnt, k % 8);
      assert k == k % 8 + 8 * cnt && k % 8 < Kept(bits, cnt);
    }
  }

  lemma AgreementToFits(lit: Literal, bits: nat, pos: nat, i: nat, cnt: nat)
    requires ValidDomain(bits) && cnt < 2
    requires Agrees(i, MaskOf(lit, bits, pos), DontCaresOf(lit, bits, pos), bits)
    ensures Fits(lit, bits, pos, i, cnt)
  {
    hide MaskOf, DontCaresOf, Fits;
    FitsByBits(lit, bits, pos, i, cnt);
    if !Outside(lit, pos, cnt) {
      var c := CharAt(lit, pos, cnt);
      forall k: nat | k < Kept(bits, cnt) ensures (CaseOpen(lit, c) && k == 5) || Bit(ByteOf(i, cnt), k) == Bit(c, k) {
        var kk := k + 8 * cnt;
        BitsOfMasks(lit, bits, pos, kk);
        BitByteOf(i, cnt, k);
        assert kk / 8 == cnt && kk % 8 == k;
        assert Bit(DontCaresOf(lit, bits, pos), kk) || Bit(i, kk) == Bit(MaskOf(lit, bits, pos), kk);
      }
    }
  }

  /** The two masks say exactly which indices the literal allows. */
  lemma CompatibleIsAgreement(lit: Literal, bits: nat, pos: nat, i: nat)
    requires ValidDomain(bits)
    ensures Compatible(lit, bits, pos, i) <==> Agrees(i, MaskOf(lit, bits, pos), DontCaresOf(lit, bits, pos), bits)
  {
    hide MaskOf, DontCaresOf, Fits, Agrees;
    if Compatible(lit, bits, pos, i) {
      CompatibleToAgreement(lit, bits, pos, i);
    }
    if Agrees(i, MaskOf(lit, bits, pos), DontCaresOf(lit, bits, pos), bits) {
      AgreementToFits(lit, bits, pos, i, 0);
      AgreementToFits(lit, bits, pos, i, 1);
    }
  }
}
