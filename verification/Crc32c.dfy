/** CRC-32C: byte by byte, and eight bytes at a time. */
module Crc32c {
  import opened Bits
  import opened Common
  import opened Xors

  /** The generator polynomial of section 12.1 of RFC 3720, bit-reversed. */
  const POLY: nat := 0x82F63B78

  /** Advance the remainder by one zero bit. */
  function BitStep(x: nat): nat {
    Xor(x / 2, if x % 2 == 1 then POLY else 0)
  }

  function BitSteps(n: nat, x: nat): nat {
    if n == 0 then x else BitSteps(n - 1, BitStep(x))
  }

  /** Advance the remainder by one zero byte. */
  function Advance(x: nat): nat {
    BitSteps(8, x)
  }

  function Iterate(k: nat, x: nat): nat {
    if k == 0 then x else Iterate(k - 1, Advance(x))
  }

  /** Lookup table number k: the byte i advanced by k+1 bytes. */
  function Table(k: nat, i: nat): nat {
    Iterate(k + 1, i)
  }

  /** One byte, table driven. */
  function Step(crc: nat, b: Byte): nat {
    Xor(Table(0, Xor(crc, b) % 256), crc / 256)
  }

  /** The bytewise form. */
  function Bytewise(crc: nat, buf: seq<Byte>): nat
    decreases |buf|
  {
    if buf == [] then crc else Bytewise(Step(crc, buf[0]), buf[1..])
  }

  lemma {:induction false} StepsSplit(m: nat, n: nat, x: nat)
    ensures BitSteps(m + n, x) == BitSteps(n, BitSteps(m, x))
    decreases m
  {
    hide BitStep;
    if m > 0 {
      StepsSplit(m - 1, n, BitStep(x));
    }
  }

  /** The entry of the source's first table that is the polynomial itself. */
  lemma TopEntry()
    ensures Table(0, 0x80) == 0x82F63B78
  {
    hide Xor;
    XorComm(0, POLY);
    XorZero(POLY);
    XorZero(0x40);
    XorZero(0x20);
    XorZero(0x10);
    XorZero(8);
    XorZero(4);
    XorZero(2);
    XorZero(1);
    StepsSplit(4, 4, 0x80);
    assert BitSteps(4, 0x80) == 8;
    assert BitSteps(4, 8) == POLY;
  }

  lemma BitStepLinear(x: nat, y: nat)
    ensures BitStep(Xor(x, y)) == Xor(BitStep(x), BitStep(y))
  {
    var cx, cy := if x % 2 == 1 then POLY else 0, if y % 2 == 1 then POLY else 0;
    XorHalf(x, y);
    XorSwap(x / 2, cx, y / 2, cy);
    XorZero(POLY);
    XorZero(0);
  }

  lemma {:induction false} BitStepsLinear(n: nat, x: nat, y: nat)
    ensures BitSteps(n, Xor(x, y)) == Xor(BitSteps(n, x), BitSteps(n, y))
    decreases n
  {
    hide BitStep;
    if n > 0 {
      BitStepLinear(x, y);
      BitStepsLinear(n - 1, BitStep(x), BitStep(y));
    }
  }

  lemma AdvanceLinear(x: nat, y: nat)
    ensures Advance(Xor(x, y)) == Xor(Advance(x), Advance(y))
  {
    BitStepsLinear(8, x, y);
  }

  lemma {:induction false} IterateLinear(k: nat, x: nat, y: nat)
    ensures Iterate(k, Xor(x, y)) == Xor(Iterate(k, x), Iterate(k, y))
    decreases k
  {
    hide Advance;
    if k > 0 {
      AdvanceLinear(x, y);
      IterateLinear(k - 1, Advance(x), Advance(y));
    }
  }

  lemma {:induction false} BitStepsShift(n: nat, h: nat)
    ensures BitSteps(n, h * Pow2(n)) == h
  {
    hide BitStep;
    if n > 0 {
      Doubled(h, Pow2(n - 1));
      ShiftOne(h * Pow2(n - 1));
      BitStepsShift(n - 1, h);
    }
  }

  lemma Doubled(h: nat, p: nat)
    ensures h * (2 * p) == 2 * (h * p)
  {
  }

  lemma ShiftOne(x: nat)
    ensures BitStep(2 * x) == x
  {
    XorZero(x);
  }

  /** A remainder with a clear low byte just shifts down. */
  lemma AdvanceShifts(h: nat)
    ensures Advance(h * 256) == h
  {
    assert Pow2(8) == 256;
    BitStepsShift(8, h);
  }

  /** One byte step is: mix the byte in, then advance. */
  lemma StepIsAdvance(crc: nat, b: Byte)
    ensures Step(crc, b) == Advance(Xor(crc, b))
  {
    hide Advance, Xor;
    var x := Xor(crc, b);
    var h, l := crc / 256, crc % 256;
    MixLow(crc, b);
    XorJoin(x / 256, x % 256);
    AdvanceLinear(x / 256 * 256, x % 256);
    AdvanceShifts(x / 256);
    XorComm(x / 256, Advance(x % 256));
    assert Table(0, x % 256) == Iterate(0, Advance(x % 256));
  }

  lemma MixLow(crc: nat, b: Byte)
    ensures Xor(crc, b) / 256 == crc / 256
  {
    hide Xor;
    var h, l := crc / 256, crc % 256;
    XorJoin(h, l);
    XorAssoc(h * 256, l, b);
    assert Pow2(8) == 256;
    XorBound(l, b, 8);
    XorJoin(h, Xor(l, b));
  }

  /** The bytes as one little-endian number. */
  function LittleEndian(buf: seq<Byte>): nat
    decreases |buf|
  {
    if buf == [] then 0 else LittleEndian(buf[1..]) * 256 + buf[0]
  }

  /** The bytewise form of any buffer, in one go: mix the whole buffer in, then advance by its length. */
  lemma {:induction false} BytewiseIsIterate(crc: nat, buf: seq<Byte>)
    ensures Bytewise(crc, buf) == Iterate(|buf|, Xor(crc, LittleEndian(buf)))
    decreases |buf|
  {
    hide Advance, Xor, Step;
    if buf == [] {
      XorZero(crc);
    } else {
      var b, rest := buf[0], LittleEndian(buf[1..]);
      StepIsAdvance(crc, b);
      BytewiseIsIterate(Step(crc, b), buf[1..]);
      AdvanceShifts(rest);
      AdvanceLinear(Xor(crc, b), rest * 256);
      XorAssoc(crc, b, rest * 256);
      XorComm(b, rest * 256);
      XorJoin(rest, b);
    }
  }

  lemma {:induction false} BytewiseConcat(crc: nat, a: seq<Byte>, b: seq<Byte>)
    ensures Bytewise(crc, a + b) == Bytewise(Bytewise(crc, a), b)
    decreases |a|
  {
    hide Step;
    if a == [] {
      assert a + b == b;
    } else {
      assert (a + b)[1..] == a[1..] + b;
      BytewiseConcat(Step(crc, a[0]), a[1..], b);
    }
  }

  lemma {:induction false} IterateTwice(j: nat, k: nat, x: nat)
    ensures Iterate(j + k, x) == Iterate(k, Iterate(j, x))
    decreases j
  {
    hide Advance;
    if j > 0 { IterateTwice(j - 1, k, Advance(x)); }
  }

  /** Advancing a word splits into advancing its low byte and the rest one byte less. */
  lemma PeelByte(n: nat, x: nat)
    requires n >= 1
    ensures Iterate(n, x) == Xor(Table(n - 1, x % 256), Iterate(n - 1, x / 256))
  {
    hide Advance, Xor;
    XorJoin(x / 256, x % 256);
    XorComm(x / 256 * 256, x % 256);
    IterateLinear(n, x % 256, x / 256 * 256);
    AdvanceShifts(x / 256);
  }

  /** Four lookups advance a 32-bit word by n bytes. */
  lemma FourLookups(n: nat, x: nat)
    requires n >= 4 && x < 0x1_0000_0000
    ensures Iterate(n, x) ==
            Xor(Xor(Xor(Table(n - 1, x % 256), Table(n - 2, x / 256 % 256)), Table(n - 3, x / 65536 % 256)),
                Table(n - 4, x / 65536 / 256 % 256))
  {
    hide Advance, Xor, Iterate, Table;
    var x1, x2, x3 := x / 256, x / 256 / 256, x / 256 / 256 / 256;
    assert x2 == x / 65536 && x3 == x / 65536 / 256 && x3 % 256 == x3 && x3 / 256 == 0;
    PeelByte(n, x);
    PeelByte(n - 1, x1);
    PeelByte(n - 2, x2);
    PeelByte(n - 3, x3);
    IterateZero(n - 4);
    XorZero(Table(n - 4, x3));
    var a, b, c, d := Table(n - 1, x % 256), Table(n - 2, x1 % 256), Table(n - 3, x2 % 256), Table(n - 4, x3);
    XorAssoc(a, b, Xor(c, d));
    XorAssoc(Xor(a, b), c, d);
  }

  lemma {:induction false} IterateZero(k: nat)
    ensures Iterate(k, 0) == 0
  {
    if k > 0 {
      AdvanceShifts(0);
      IterateZero(k - 1);
    }
  }

  /** The loop body of the slicing form, on a word and the two blocks it reads. */
  function SliceStep(crc: nat, block1: nat, block2: nat): nat {
    var x := Xor(crc, block1);
    var term1 := Xor(Table(7, x % 256), Table(6, x / 256 % 256));
    var term2 := x / 65536;
    var y := Xor(Xor(term1, Table(5, term2 % 256)), Table(4, term2 / 256 % 256));
    var term3 := Xor(Table(3, block2 % 256), Table(2, block2 / 256 % 256));
    var term4 := block2 / 65536;
    Xor(Xor(Xor(y, term3), Table(1, term4 % 256)), Table(0, term4 / 256 % 256))
  }

  /** Eight bytes at once are eight bytes one by one. */
  lemma SliceStepIsBytewise(crc: nat, lo: seq<Byte>, hi: seq<Byte>)
    requires |lo| == 4 && |hi| == 4 && crc < 0x1_0000_0000
    ensures SliceStep(crc, LittleEndian(lo), LittleEndian(hi)) == Bytewise(crc, lo + hi)
  {
    hide Xor, Iterate, Table, LittleEndian;
    var b1, b2 := LittleEndian(lo), LittleEndian(hi);
    var x := Xor(crc, b1);
    LittleEndian4(lo);
    LittleEndian4(hi);
    WordXor(crc, b1);
    BytewiseConcat(crc, lo, hi);
    BytewiseIsIterate(crc, lo);
    BytewiseIsIterate(Bytewise(crc, lo), hi);
    IterateLinear(4, Iterate(4, x), b2);
    IterateTwice(4, 4, x);
    FourLookups(8, x);
    FourLookups(4, b2);
    var y := Iterate(8, x);
    var p, q, r := Xor(Table(3, b2 % 256), Table(2, b2 / 256 % 256)), Table(1, b2 / 65536 % 256), Table(0, b2 / 65536 / 256 % 256);
    XorAssoc(y, Xor(p, q), r);
    XorAssoc(y, p, q);
  }

  lemma LittleEndian4(buf: seq<Byte>)
    requires |buf| == 4
    ensures LittleEndian(buf) < 0x1_0000_0000
  {
    assert LittleEndian(buf[1..][1..][1..][1..]) == 0;
    assert LittleEndian(buf[1..][1..][1..]) == buf[3];
    assert LittleEndian(buf[1..][1..]) == (buf[3] as int) * 256 + buf[2];
  }

  lemma WordXor(a: nat, b: nat)
    requires a < 0x1_0000_0000 && b < 0x1_0000_0000
    ensures Xor(a, b) < 0x1_0000_0000
  {
    assert Pow2(32) == 0x1_0000_0000 by {
      assert Pow2(8) == 256;
      Pow2Add(8, 8);
      Pow2Add(16, 16);
    }
    XorBound(a, b, 32);
  }

  lemma {:induction false} Pow2Add(a: nat, b: nat)
    ensures Pow2(a + b) == Pow2(a) * Pow2(b)
  {
    if a > 0 { Pow2Add(a - 1, b); }
  }

  lemma {:induction false} BitStepsWord(n: nat, x: nat)
    requires x < 0x1_0000_0000
    ensures BitSteps(n, x) < 0x1_0000_0000
    decreases n
  {
    if n > 0 {
      WordXor(x / 2, if x % 2 == 1 then POLY else 0);
      BitStepsWord(n - 1, BitStep(x));
    }
  }

  lemma StepWord(crc: nat, b: Byte)
    requires crc < 0x1_0000_0000
    ensures Step(crc, b) < 0x1_0000_0000
  {
    hide Xor, Step;
    StepIsAdvance(crc, b);
    WordXor(crc, b);
    BitStepsWord(8, Xor(crc, b));
  }

  lemma {:induction false} BytewiseWord(crc: nat, buf: seq<Byte>)
    requires crc < 0x1_0000_0000
    ensures Bytewise(crc, buf) < 0x1_0000_0000
    decreases |buf|
  {
    hide Step;
    if buf != [] {
      StepWord(crc, buf[0]);
      BytewiseWord(Step(crc, buf[0]), buf[1..]);
    }
  }

  /** A run of single-byte steps over buf[from..to]. */
  method ByteLoop(running: nat, buf: seq<Byte>, from: nat, to: nat) returns (crc: nat)
    requires from <= to <= |buf|
    ensures crc == Bytewise(running, buf[from..to])
  {
    hide Step;
    crc := running;
    for i := from to to
      invariant crc == Bytewise(running, buf[from..i])
    {
      assert buf[from..i + 1] == buf[from..i] + [buf[i]];
      BytewiseConcat(running, buf[from..i], [buf[i]]);
      crc := Step(crc, buf[i]);
    }
  }

  /** Where the aligned loop stops reading, in 64-bit arithmetic. */
  function AlignedEnd(length: nat, initBytes: nat): nat {
    initBytes + (length - initBytes) % 0x1_0000_0000_0000_0000 / 8 * 8
  }

  /** It stays inside the buffer if and only if the bytes up to alignment do. */
  lemma AlignedEndInsideIff(length: nat, initBytes: nat)
    requires initBytes < 4 && length < 0x1_0000_0000_0000_0000
    ensures AlignedEnd(length, initBytes) <= length <==> initBytes <= length
  {
  }

  /** The slicing form on a buffer at address `addr`: bytes up to 4-byte alignment, then eight bytes at a
      time with little-endian loads, then the remaining bytes. */
  method SlicingBy8(running: nat, buf: seq<Byte>, addr: nat) returns (crc: nat)
    requires running < 0x1_0000_0000
    requires |buf| >= (4 - addr % 4) % 4
    ensures crc == Bytewise(running, buf)
  {
    hide Bytewise, SliceStep, LittleEndian;
    var initBytes := (4 - addr % 4) % 4;
    var runningLength := (|buf| - initBytes) / 8 * 8;
    crc := ByteLoop(running, buf, 0, initBytes);
    var p := initBytes;
    for li := 0 to runningLength / 8
      invariant p == initBytes + 8 * li
      invariant crc == Bytewise(running, buf[..p])
    {
      BytewiseWord(running, buf[..p]);
      SliceStepIsBytewise(crc, buf[p..p + 4], buf[p + 4..p + 8]);
      BytewiseConcat(running, buf[..p], buf[p..p + 4] + buf[p + 4..p + 8]);
      assert buf[..p] + (buf[p..p + 4] + buf[p + 4..p + 8]) == buf[..p + 8];
      crc := SliceStep(crc, LittleEndian(buf[p..p + 4]), LittleEndian(buf[p + 4..p + 8]));
      p := p + 8;
    }
    BytewiseConcat(running, buf[..p], buf[p..]);
    assert buf[..p] + buf[p..] == buf;
    crc := ByteLoop(crc, buf, p, |buf|);
    assert buf[p..|buf|] == buf[p..];
  }

  /** Each table is the one-byte advance of the table before it. */
  lemma TableRecurrence(k: nat, i: nat)
    ensures Table(k + 1, i) == Xor(Table(0, Table(k, i) % 256), Table(k, i) / 256)
  {
    hide Advance, Xor;
    var t := Table(k, i);
    IterateTwice(k + 1, 1, i);
    PeelByte(1, t);
  }

  lemma BitStepInjective(x: nat, y: nat)
    requires x < 0x1_0000_0000 && y < 0x1_0000_0000 && BitStep(x) == BitStep(y)
    ensures x == y
  {
    var cx, cy := if x % 2 == 1 then POLY else 0, if y % 2 == 1 then POLY else 0;
    TopBit(x / 2, cx);
    TopBit(y / 2, cy);
    XorComm(x / 2, cx);
    XorComm(y / 2, cy);
    if cx == cy {
      XorCancel(cx, x / 2, y / 2);
    }
  }

  /** The polynomial has its top bit set, so the bit shifted out can be read off the result. */
  lemma TopBit(h: nat, c: nat)
    requires h < 0x8000_0000 && (c == POLY || c == 0)
    ensures Xor(h, c) >= 0x8000_0000 <==> c == POLY
  {
    assert Pow2(31) == 0x8000_0000 by {
      assert Pow2(8) == 256;
      Pow2Add(8, 8);
      Pow2Add(16, 8);
      assert Pow2(7) == 128;
      Pow2Add(24, 7);
    }
    XorZero(h);
    if c == POLY {
      var rest := POLY - 0x8000_0000;
      assert Bit(POLY, 31) by {
        BitJoin(1, rest, 31, 31);
      }
      BitHigh(h, 31, 31);
      BitXor(h, POLY, 31);
      if Xor(h, POLY) < 0x8000_0000 {
        BitHigh(Xor(h, POLY), 31, 31);
      }
    }
  }

  lemma {:induction false} BitStepsInjective(n: nat, x: nat, y: nat)
    requires x < 0x1_0000_0000 && y < 0x1_0000_0000 && BitSteps(n, x) == BitSteps(n, y)
    ensures x == y
    decreases n
  {
    hide BitStep;
    if n > 0 {
      BitStepsWord(1, x);
      BitStepsWord(1, y);
      assert BitSteps(1, x) == BitSteps(0, BitStep(x)) && BitSteps(1, y) == BitSteps(0, BitStep(y));
      BitStepsInjective(n - 1, BitStep(x), BitStep(y));
      BitStepInjective(x, y);
    }
  }

  lemma {:induction false} IterateInjective(k: nat, x: nat, y: nat)
    requires x < 0x1_0000_0000 && y < 0x1_0000_0000 && Iterate(k, x) == Iterate(k, y)
    ensures x == y
    decreases k
  {
    if k > 0 {
      BitStepsWord(8, x);
      BitStepsWord(8, y);
      IterateInjective(k - 1, Advance(x), Advance(y));
      BitStepsInjective(8, x, y);
    }
  }

  lemma {:induction false} LittleEndianInjective(a: seq<Byte>, b: seq<Byte>)
    requires |a| == |b| && LittleEndian(a) == LittleEndian(b)
    ensures a == b
    decreases |a|
  {
    if a != [] {
      LittleEndianInjective(a[1..], b[1..]);
      assert a == [a[0]] + a[1..] && b == [b[0]] + b[1..];
    }
  }

  lemma {:induction false} LittleEndianWord(a: seq<Byte>)
    requires |a| <= 4
    ensures LittleEndian(a) < 0x1_0000_0000
    decreases 4 - |a|
  {
    if |a| == 4 {
      LittleEndian4(a);
    } else {
      var padded := a + [0];
      LittleEndianPad(a);
      LittleEndianWord(padded);
    }
  }

  lemma {:induction false} LittleEndianPad(a: seq<Byte>)
    ensures LittleEndian(a + [0]) == LittleEndian(a)
    decreases |a|
  {
    if a != [] {
      assert (a + [0])[1..] == a[1..] + [0];
      LittleEndianPad(a[1..]);
    }
  }

  /** Damage confined to at most four consecutive bytes always changes the checksum. */
  lemma BurstDetected(crc: nat, a: seq<Byte>, m: seq<Byte>, m': seq<Byte>, b: seq<Byte>)
    requires crc < 0x1_0000_0000 && |m| == |m'| <= 4 && m != m'
    ensures Bytewise(crc, a + m + b) != Bytewise(crc, a + m' + b)
  {
    hide Bytewise, Iterate, LittleEndian, Xor;
    if Bytewise(crc, a + m + b) == Bytewise(crc, a + m' + b) {
      var c := Bytewise(crc, a);
      BytewiseWord(crc, a);
      BytewiseConcat(crc, a + m, b);
      BytewiseConcat(crc, a + m', b);
      BytewiseConcat(crc, a, m);
      BytewiseConcat(crc, a, m');
      BytewiseWord(c, m);
      BytewiseWord(c, m');
      TailInjective(Bytewise(c, m), Bytewise(c, m'), b);
      BytewiseIsIterate(c, m);
      BytewiseIsIterate(c, m');
      LittleEndianWord(m);
      LittleEndianWord(m');
      WordXor(c, LittleEndian(m));
      WordXor(c, LittleEndian(m'));
      IterateInjective(|m|, Xor(c, LittleEndian(m)), Xor(c, LittleEndian(m')));
      XorCancel(c, LittleEndian(m), LittleEndian(m'));
      LittleEndianInjective(m, m');
    }
  }

  lemma {:induction false} TailInjective(x: nat, y: nat, b: seq<Byte>)
    requires x < 0x1_0000_0000 && y < 0x1_0000_0000 && Bytewise(x, b) == Bytewise(y, b)
    ensures x == y
    decreases |b|
  {
    hide Step, Xor, BitSteps;
    if b != [] {
      StepWord(x, b[0]);
      StepWord(y, b[0]);
      TailInjective(Step(x, b[0]), Step(y, b[0]), b[1..]);
      StepIsAdvance(x, b[0]);
      StepIsAdvance(y, b[0]);
      WordXor(x, b[0]);
      WordXor(y, b[0]);
      BitStepsInjective(8, Xor(x, b[0]), Xor(y, b[0]));
      XorComm(x, b[0]);
      XorComm(y, b[0]);
      XorCancel(b[0], x, y);
    }
  }
}
