/** The serialized form of a database: fixed-width little-endian fields, bytecode, zero padding. */
module DatabaseFormat {
  import opened Common
  import opened Bits
  import opened Crc32c

  const DB_MAGIC: nat := 0xdbdbdbdb
  /** Size of the in-memory header; a serialized database is as long as an in-memory one. */
  const HEADER_SIZE: nat := 104
  /** Bytes of serialized header fields. */
  const FIELDS_SIZE: nat := 32

  datatype Status = Success | Invalid | VersionError | PlatformError | BadAlign

  /** What the running library accepts: its version and the CPU features it was built without. */
  datatype Runtime = Runtime(version: nat, noAvx2: bool, noAvx512: bool, noVbmi: bool)

  function Flag(b: bool, v: nat): nat { if b then v else 0 }

  /** The platform word for a set of missing features. */
  function PlatformWord(noAvx2: bool, noAvx512: bool, noVbmi: bool): nat {
    Flag(noAvx2, 0x8000) + Flag(noAvx512, 0x10000) + Flag(noVbmi, 0x20000)
  }

  /** A database built for this platform, or for it without AVX2, without AVX-512, or without AVX-512VBMI. */
  predicate PlatformAccepted(p: nat, rt: Runtime) {
    || p == PlatformWord(rt.noAvx2, rt.noAvx512, rt.noVbmi)
    || p == PlatformWord(true, true, true)
    || p == PlatformWord(rt.noAvx2, true, true)
    || p == PlatformWord(rt.noAvx2, rt.noAvx512, true)
  }

  /** The bits of the features that the running library was built without. */
  function MissingBits(rt: Runtime): bv64 {
    (if rt.noAvx2 then 4 << 13 else 0) | (if rt.noAvx512 then 8 << 13 else 0) | (if rt.noVbmi then 0x10 << 13 else 0)
  }

  /** Accepted are exactly those bits, alone or with one of three fallback sets. */
  lemma PlatformBits(p: bv64, rt: Runtime)
    ensures PlatformAccepted(p as nat, rt) <==>
            || p == MissingBits(rt) || p == MissingBits(rt) | 0x38000
            || p == MissingBits(rt) | 0x30000 || p == MissingBits(rt) | 0x20000
  {
    hide MissingBits, PlatformWord;
    FallbackBits(rt);
    WordBits(rt.noAvx2, rt.noAvx512, rt.noVbmi, p);
    WordBits(true, true, true, p);
    WordBits(rt.noAvx2, true, true, p);
    WordBits(rt.noAvx2, rt.noAvx512, true, p);
  }

  lemma FallbackBits(rt: Runtime)
    ensures MissingBits(Runtime(0, rt.noAvx2, rt.noAvx512, rt.noVbmi)) == MissingBits(rt)
    ensures MissingBits(Runtime(0, true, true, true)) == MissingBits(rt) | 0x38000
    ensures MissingBits(Runtime(0, rt.noAvx2, true, true)) == MissingBits(rt) | 0x30000
    ensures MissingBits(Runtime(0, rt.noAvx2, rt.noAvx512, true)) == MissingBits(rt) | 0x20000
  {
  }

  lemma WordBits(noAvx2: bool, noAvx512: bool, noVbmi: bool, p: bv64)
    ensures p as nat == PlatformWord(noAvx2, noAvx512, noVbmi) <==>
            p == MissingBits(Runtime(0, noAvx2, noAvx512, noVbmi))
  {
  }

  /** The header fields that travel. */
  datatype Header = Header(magic: nat, version: nat, length: nat, platform: nat, crc: nat, reserved0: nat,
                           reserved1: nat)
  {
    predicate InRange() {
      && magic < 0x1_0000_0000 && version < 0x1_0000_0000 && length < 0x1_0000_0000
      && platform < 0x1_0000_0000_0000_0000 && crc < 0x1_0000_0000
      && reserved0 < 0x1_0000_0000 && reserved1 < 0x1_0000_0000
    }
  }

  function Capacity(n: nat): (r: nat)
    ensures r >= 1
  {
    if n == 0 then 1 else 256 * Capacity(n - 1)
  }

  /** x as n little-endian bytes. */
  function Stored(x: nat, n: nat): (r: seq<Byte>)
    ensures |r| == n
    decreases n
  {
    if n == 0 then [] else [x % 256] + Stored(x / 256, n - 1)
  }

  lemma {:induction false} LoadStored(x: nat, n: nat)
    requires x < Capacity(n)
    ensures LittleEndian(Stored(x, n)) == x
    decreases n
  {
    if n > 0 {
      LoadStored(x / 256, n - 1);
      assert Stored(x, n)[1..] == Stored(x / 256, n - 1);
    }
  }

  lemma {:induction false} StoredLoad(s: seq<Byte>)
    ensures Stored(LittleEndian(s), |s|) == s && LittleEndian(s) < Capacity(|s|)
    decreases |s|
  {
    if s != [] {
      StoredLoad(s[1..]);
      var x, rest, n := LittleEndian(s), LittleEndian(s[1..]), |s|;
      assert x == rest * 256 + s[0];
      LowByte(rest, s[0]);
      assert Stored(x, n) == [s[0]] + Stored(rest, n - 1);
      assert s == [s[0]] + s[1..];
    }
  }

  lemma LowByte(rest: nat, b: Byte)
    ensures (rest * 256 + b) % 256 == b && (rest * 256 + b) / 256 == rest
  {
  }

  lemma Capacities()
    ensures Capacity(4) == 0x1_0000_0000 && Capacity(8) == 0x1_0000_0000_0000_0000
  {
    assert Capacity(4) == 256 * (256 * (256 * (256 * Capacity(0))));
    assert Capacity(8) == 256 * (256 * (256 * (256 * Capacity(4))));
  }

  /** The fields in order, followed by the rest. */
  function WithFields(h: Header, rest: seq<Byte>): (r: seq<Byte>)
    ensures |r| == FIELDS_SIZE + |rest|
  {
    Stored(h.magic, 4) + (Stored(h.version, 4) + (Stored(h.length, 4) + (Stored(h.platform, 8) +
    (Stored(h.crc, 4) + (Stored(h.reserved0, 4) + (Stored(h.reserved1, 4) + rest))))))
  }

  function Zeros(n: nat): (r: seq<Byte>)
    ensures |r| == n
  {
    seq(n, _ => 0)
  }

  /** The serialized form. */
  function Serialized(h: Header, code: seq<Byte>): seq<Byte> {
    WithFields(h, code + Zeros(HEADER_SIZE - FIELDS_SIZE))
  }

  /** The little-endian number in n bytes at an offset. */
  function At(bytes: seq<Byte>, offset: nat, n: nat): nat
    requires offset + n <= |bytes|
  {
    LittleEndian(bytes[offset..offset + n])
  }

  function HeaderOf(bytes: seq<Byte>): Header
    requires |bytes| >= FIELDS_SIZE
  {
    Header(At(bytes, 0, 4), At(bytes, 4, 4), At(bytes, 8, 4), At(bytes, 12, 8), At(bytes, 20, 4), At(bytes, 24, 4),
           At(bytes, 28, 4))
  }

  lemma FirstField(x: nat, n: nat, rest: seq<Byte>)
    requires x < Capacity(n)
    ensures At(Stored(x, n) + rest, 0, n) == x && (Stored(x, n) + rest)[n..] == rest
  {
    LoadStored(x, n);
    assert (Stored(x, n) + rest)[0..n] == Stored(x, n);
  }

  lemma Drop(s: seq<Byte>, offset: nat, more: nat, n: nat)
    requires offset + more + n <= |s|
    ensures s[offset..][more..] == s[offset + more..]
    ensures At(s, offset + more, n) == At(s[offset..], more, n)
  {
    assert s[offset + more..offset + more + n] == s[offset..][more..more + n];
  }

  lemma ReadFields(h: Header, rest: seq<Byte>)
    requires h.InRange()
    ensures HeaderOf(WithFields(h, rest)) == h && WithFields(h, rest)[FIELDS_SIZE..] == rest
  {
    hide At, Stored, Capacity;
    Capacities();
    var s := WithFields(h, rest);
    var r6 := Stored(h.reserved1, 4) + rest;
    var r5 := Stored(h.reserved0, 4) + r6;
    var r4 := Stored(h.crc, 4) + r5;
    var r3 := Stored(h.platform, 8) + r4;
    var r2 := Stored(h.length, 4) + r3;
    var r1 := Stored(h.version, 4) + r2;
    FirstField(h.magic, 4, r1);
    Drop(s, 4, 0, 4);
    FirstField(h.version, 4, r2);
    Drop(s, 4, 4, 4);
    Drop(s, 8, 0, 4);
    FirstField(h.length, 4, r3);
    Drop(s, 8, 4, 8);
    Drop(s, 12, 0, 8);
    FirstField(h.platform, 8, r4);
    Drop(s, 12, 8, 4);
    Drop(s, 20, 0, 4);
    FirstField(h.crc, 4, r5);
    Drop(s, 20, 4, 4);
    Drop(s, 24, 0, 4);
    FirstField(h.reserved0, 4, r6);
    Drop(s, 24, 4, 4);
    Drop(s, 28, 0, 4);
    FirstField(h.reserved1, 4, rest);
    Drop(s, 28, 4, 0);
  }

  /** Reading a serialized database gives back every field and the bytecode. */
  lemma ReadSerialized(h: Header, code: seq<Byte>)
    requires h.InRange()
    ensures HeaderOf(Serialized(h, code)) == h
    ensures Serialized(h, code)[FIELDS_SIZE..FIELDS_SIZE + |code|] == code
    ensures |Serialized(h, code)| == HEADER_SIZE + |code|
  {
    hide HeaderOf, WithFields;
    var rest := code + Zeros(HEADER_SIZE - FIELDS_SIZE);
    ReadFields(h, rest);
    var s := WithFields(h, rest);
    assert s[FIELDS_SIZE..FIELDS_SIZE + |code|] == s[FIELDS_SIZE..][..|code|];
  }

  /** The 32-bit number in the four bytes at p, low byte first. */
  function Word32(bytes: seq<Byte>, p: nat): nat
    requires p + 4 <= |bytes|
  {
    (bytes[p] as int) + 0x100 * (bytes[p + 1] as int) + 0x1_0000 * (bytes[p + 2] as int) + 0x100_0000 * (bytes[p + 3] as int)
  }

  lemma FourBytes(a: Byte, b: Byte, c: Byte, d: Byte, rest: seq<Byte>)
    ensures LittleEndian([a, b, c, d] + rest) ==
            (a as int) + 0x100 * (b as int) + 0x1_0000 * (c as int) + 0x100_0000 * (d as int) + 0x1_0000_0000 * LittleEndian(rest)
  {
    assert ([a, b, c, d] + rest)[1..] == [b, c, d] + rest;
    assert ([b, c, d] + rest)[1..] == [c, d] + rest;
    assert ([c, d] + rest)[1..] == [d] + rest;
    assert ([d] + rest)[1..] == rest;
    assert LittleEndian([c, d] + rest) == c + 0x100 * LittleEndian([d] + rest);
  }

  lemma AtIsWord(bytes: seq<Byte>, p: nat)
    requires p + 4 <= |bytes|
    ensures At(bytes, p, 4) == Word32(bytes, p)
  {
    var a, b, c, d: Byte := bytes[p], bytes[p + 1], bytes[p + 2], bytes[p + 3];
    assert bytes[p..p + 4] == [a, b, c, d];
    assert [a, b, c, d] + [] == [a, b, c, d];
    FourBytes(a, b, c, d, []);
  }

  lemma AtIsWords(bytes: seq<Byte>, p: nat)
    requires p + 8 <= |bytes|
    ensures At(bytes, p, 8) == Word32(bytes, p) + 0x1_0000_0000 * Word32(bytes, p + 4)
  {
    AtIsWord(bytes, p + 4);
    var a, b, c, d: Byte := bytes[p], bytes[p + 1], bytes[p + 2], bytes[p + 3];
    assert bytes[p..p + 8] == [a, b, c, d] + bytes[p + 4..p + 8];
    FourBytes(a, b, c, d, bytes[p + 4..p + 8]);
  }

  /** Where every field and the bytecode stand in the serialized form. */
  lemma SerializedLayout(h: Header, code: seq<Byte>)
    requires h.InRange()
    ensures var s := Serialized(h, code);
            && |s| == 104 + |code| && Word32(s, 0) == h.magic && Word32(s, 4) == h.version && Word32(s, 8) == h.length
            && Word32(s, 12) + 0x1_0000_0000 * Word32(s, 16) == h.platform && Word32(s, 20) == h.crc
            && Word32(s, 24) == h.reserved0 && Word32(s, 28) == h.reserved1 && s[32..32 + |code|] == code
  {
    hide Word32, At, Serialized;
    ReadSerialized(h, code);
    var s := Serialized(h, code);
    AtIsWord(s, 0);
    AtIsWord(s, 4);
    AtIsWord(s, 8);
    AtIsWords(s, 12);
    AtIsWord(s, 20);
    AtIsWord(s, 24);
    AtIsWord(s, 28);
  }

  /** Which result reading a byte string gives, in the order the checks are made. */
  function Verdict(bytes: seq<Byte>, rt: Runtime): Status {
    if |bytes| < HEADER_SIZE then Invalid
    else
      var h := HeaderOf(bytes);
      if h.magic != DB_MAGIC then Invalid
      else if h.version != rt.version then VersionError
      else if |bytes| != HEADER_SIZE + h.length then Invalid
      else if !PlatformAccepted(h.platform, rt) then PlatformError
      else if Bytewise(0, bytes[FIELDS_SIZE..FIELDS_SIZE + h.length]) != h.crc then Invalid
      else Success
  }

  /** A sound database reads back if and only if its platform is accepted. */
  lemma RoundTrip(h: Header, code: seq<Byte>, rt: Runtime)
    requires h.InRange() && h.magic == 0xdbdbdbdb && h.version == rt.version && h.length == |code|
    requires h.crc == Bytewise(0, code)
    ensures Verdict(Serialized(h, code), rt) == (if PlatformAccepted(h.platform, rt) then Success else PlatformError)
  {
    hide HeaderOf, Serialized, Bytewise;
    ReadSerialized(h, code);
  }

  /** What is read back serializes to the same bytes, up to the padding at the end. */
  lemma WriteRead(bytes: seq<Byte>)
    requires |bytes| >= HEADER_SIZE
    ensures HeaderOf(bytes).InRange()
    ensures Serialized(HeaderOf(bytes), bytes[FIELDS_SIZE..|bytes| - (HEADER_SIZE - FIELDS_SIZE)])
         == bytes[..|bytes| - (HEADER_SIZE - FIELDS_SIZE)] + Zeros(HEADER_SIZE - FIELDS_SIZE)
  {
    hide At, Stored, Zeros, Capacity;
    Capacities();
    var end := |bytes| - (HEADER_SIZE - FIELDS_SIZE);
    var s := bytes[..end] + Zeros(HEADER_SIZE - FIELDS_SIZE);
    SameFront(bytes, s, end);
    Restored(bytes, s, 0, 4);
    Restored(bytes, s, 4, 4);
    Restored(bytes, s, 8, 4);
    Restored(bytes, s, 12, 8);
    Restored(bytes, s, 20, 4);
    Restored(bytes, s, 24, 4);
    Restored(bytes, s, 28, 4);
    assert s[FIELDS_SIZE..] == bytes[FIELDS_SIZE..end] + Zeros(HEADER_SIZE - FIELDS_SIZE);
    assert s[0..] == s;
  }

  lemma Restored(bytes: seq<Byte>, s: seq<Byte>, i: nat, n: nat)
    requires i + n <= |bytes| == |s| && bytes[..i + n] == s[..i + n]
    ensures At(bytes, i, n) < Capacity(n)
    ensures s[i..] == Stored(At(bytes, i, n), n) + s[i + n..]
  {
    hide Stored, LittleEndian, Capacity;
    StoredLoad(bytes[i..i + n]);
    SameSlice(bytes, s, i, n);
  }

  lemma SameFront(a: seq<Byte>, b: seq<Byte>, end: nat)
    requires FIELDS_SIZE <= end <= |a| == |b| && a[..end] == b[..end]
    ensures a[..4] == b[..4] && a[..8] == b[..8] && a[..12] == b[..12] && a[..20] == b[..20]
    ensures a[..24] == b[..24] && a[..28] == b[..28] && a[..32] == b[..32]
  {
    assert forall k: nat :: k < end ==> a[..end][k] == a[k] && b[..end][k] == b[k];
  }

  lemma SameSlice(a: seq<Byte>, b: seq<Byte>, i: nat, n: nat)
    requires i + n <= |a| == |b| && a[..i + n] == b[..i + n]
    ensures a[i..i + n] == b[i..i + n] && b[i..] == b[i..i + n] + b[i + n..]
  {
    assert a[i..i + n] == a[..i + n][i..];
    assert b[i..i + n] == b[..i + n][i..];
  }

  /** Damage to at most four consecutive bytecode bytes of a readable database is always refused. */
  lemma DamageRefused(rt: Runtime, bytes: seq<Byte>, pre: seq<Byte>, m: seq<Byte>, m': seq<Byte>, post: seq<Byte>)
    requires bytes == pre + m + post && |m| == |m'| <= 4 && m != m'
    requires |pre| >= FIELDS_SIZE && |post| >= HEADER_SIZE - FIELDS_SIZE
    requires Verdict(bytes, rt) == Success
    ensures Verdict(pre + m' + post, rt) == Invalid
  {
    hide Bytewise, LittleEndian;
    var damaged := pre + m' + post;
    var cut := |post| - (HEADER_SIZE - FIELDS_SIZE);
    SameHeader(bytes, damaged);
    var n := HeaderOf(bytes).length;
    assert bytes[FIELDS_SIZE..FIELDS_SIZE + n] == pre[FIELDS_SIZE..] + m + post[..cut];
    assert damaged[FIELDS_SIZE..FIELDS_SIZE + n] == pre[FIELDS_SIZE..] + m' + post[..cut];
    BurstDetected(0, pre[FIELDS_SIZE..], m, m', post[..cut]);
  }

  lemma SameHeader(a: seq<Byte>, b: seq<Byte>)
    requires |a| == |b| >= FIELDS_SIZE && a[..FIELDS_SIZE] == b[..FIELDS_SIZE]
    ensures HeaderOf(a) == HeaderOf(b)
  {
    hide At;
    SamePrefix(a, b, 0, 4);
    SamePrefix(a, b, 4, 4);
    SamePrefix(a, b, 8, 4);
    SamePrefix(a, b, 12, 8);
    SamePrefix(a, b, 20, 4);
    SamePrefix(a, b, 24, 4);
    SamePrefix(a, b, 28, 4);
  }

  lemma SamePrefix(a: seq<Byte>, b: seq<Byte>, i: nat, n: nat)
    requires |a| == |b| >= FIELDS_SIZE && a[..FIELDS_SIZE] == b[..FIELDS_SIZE] && i + n <= FIELDS_SIZE
    ensures At(a, i, n) == At(b, i, n)
  {
    assert forall k: nat :: k < FIELDS_SIZE ==> a[..FIELDS_SIZE][k] == a[k] && b[..FIELDS_SIZE][k] == b[k];
    assert a[i..i + n] == b[i..i + n];
  }
}
