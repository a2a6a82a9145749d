/** Databases in memory: creation, serialization and deserialization in place. */
module Database {
  import opened Common
  import opened Crc32c
  import opened DatabaseFormat

  /** Where the fixed header fields of the structure end. */
  const FIELDS_END: nat := 40

  /** The header is that of this library's databases and fits the length. */
  predicate HeaderAccepted(bytes: seq<Byte>, rt: Runtime) {
    && |bytes| >= HEADER_SIZE && HeaderOf(bytes).magic == DB_MAGIC && HeaderOf(bytes).version == rt.version
    && |bytes| == HEADER_SIZE + HeaderOf(bytes).length
  }

  /** All checks pass that are made before the block is written. */
  predicate Loadable(bytes: seq<Byte>, rt: Runtime) {
    HeaderAccepted(bytes, rt) && PlatformAccepted(HeaderOf(bytes).platform, rt)
  }

  /** A database block at an address. The bytecode may start inside the structure's padding, so the block is kept
      as the fixed fields and all bytes behind them. */
  class Block {
    const addr: nat
    var magic: nat
    var version: nat
    var length: nat
    var platform: nat
    var crc32: nat
    var reserved0: nat
    var reserved1: nat
    /** Offset of the bytecode from the start of the block. */
    var bytecode: nat
    /** The block from offset FIELDS_END on. */
    const rest: array<Byte>

    constructor (addr: nat, size: nat)
      requires size >= HEADER_SIZE
      ensures this.addr == addr && 40 + rest.Length == size && fresh(rest)
    {
      this.addr := addr;
      rest := new Byte[size - FIELDS_END];
    }

    function HeaderValue(): Header
      reads this
    {
      Header(magic, version, length, platform, crc32, reserved0, reserved1)
    }

    /** The bytecode lies inside the block, clear of the fixed fields, on a cache line. */
    ghost predicate Placed()
      reads this
    {
      && 40 <= bytecode && bytecode + length <= 40 + rest.Length
      && (addr + bytecode) % 64 == 0
    }

    function Bytecode(): seq<Byte>
      requires Placed()
      reads this, rest
    {
      rest[bytecode - FIELDS_END..bytecode - FIELDS_END + length]
    }

    ghost predicate Valid()
      reads this, rest
    {
      Placed() && HeaderValue().InRange() && crc32 == Bytewise(0, Bytecode())
    }

    /** Copy bytecode to the first cache-line boundary at or below the end of the structure. */
    method CopyBytecode(code: seq<Byte>)
      requires addr % 8 == 0 && length == |code| && HEADER_SIZE + |code| <= FIELDS_END + rest.Length
      modifies this`bytecode, rest
      ensures Placed() && Bytecode() == code && bytecode <= 104 < bytecode + 64
    {
      var shift := (addr + HEADER_SIZE) % 64;
      AlignDown(addr);
      bytecode := HEADER_SIZE - shift;
      var at := bytecode - FIELDS_END;
      forall i | 0 <= i < |code| {
        rest[at + i] := code[i];
      }
      assert rest[at..at + length] == code;
    }

    /** The checksum of the bytecode, eight bytes at a time. */
    method Checksum() returns (crc: nat)
      requires Placed()
      ensures crc == Bytewise(0, Bytecode())
    {
      LineIsWord(addr + bytecode);
      crc := SlicingBy8(0, Bytecode(), addr + bytecode);
    }

    method Clear(n: nat)
      requires n <= rest.Length
      modifies rest
      ensures forall i :: 0 <= i < rest.Length ==> rest[i] == if i < n then 0 else old(rest[i])
    {
      forall i | 0 <= i < n {
        rest[i] := 0;
      }
    }

    /** Fill a fresh block with a compiled database. */
    method Create(code: seq<Byte>, platform: nat, version: nat)
      requires addr % 8 == 0 && HEADER_SIZE + |code| == FIELDS_END + rest.Length
      requires |code| < 0x1_0000_0000 && version < 0x1_0000_0000 && platform < 0x1_0000_0000_0000_0000
      modifies this, rest
      ensures Valid() && Bytecode() == code
      ensures HeaderValue() == Header(DB_MAGIC, version, |code|, platform, Bytewise(0, code), 0, 0)
    {
      hide Bytewise;
      Clear(rest.Length);
      reserved0, reserved1 := 0, 0;
      magic, this.version, length, this.platform := DB_MAGIC, version, |code|, platform;
      CopyBytecode(code);
      crc32 := Checksum();
      BytewiseWord(0, code);
    }

    method Serialize(rt: Runtime) returns (status: Status, bytes: seq<Byte>)
      requires Placed()
      ensures status == if addr % 8 != 0 then BadAlign
                        else if magic != DB_MAGIC then Invalid
                        else if version != rt.version then VersionError
                        else Success
      ensures status == Success ==> bytes == Serialized(HeaderValue(), Bytecode())
      ensures status != Success ==> bytes == []
    {
      if addr % 8 != 0 {
        return BadAlign, [];
      }
      if magic != DB_MAGIC {
        return Invalid, [];
      }
      if version != rt.version {
        return VersionError, [];
      }
      bytes := WriteOut(HeaderValue(), Bytecode());
      return Success, bytes;
    }

    /** Check and read a serialized database into this block. */
    method DeserializeAt(bytes: seq<Byte>, rt: Runtime) returns (status: Status)
      requires |bytes| <= FIELDS_END + rest.Length
      modifies this, rest
      ensures status == if addr % 8 != 0 then BadAlign else Verdict(bytes, rt)
      ensures addr % 8 != 0 || !Loadable(bytes, rt) ==> unchanged(this) && unchanged(rest)
      ensures addr % 8 == 0 && Loadable(bytes, rt) ==>
                && HeaderValue() == HeaderOf(bytes) && Placed()
                && Bytecode() == bytes[FIELDS_SIZE..FIELDS_SIZE + length]
      ensures status == Success ==> addr % 8 == 0 && Loadable(bytes, rt) && Valid()
    {
      hide Bytewise;
      if addr % 8 != 0 {
        return BadAlign;
      }
      var header;
      status, header := DecodeHeader(bytes, rt);
      if status != Success {
        return;
      }
      if !PlatformAccepted(header.platform, rt) {
        return PlatformError;
      }
      WriteRead(bytes);
      var ok := Load(header, bytes[FIELDS_SIZE..FIELDS_SIZE + header.length]);
      if !ok {
        return Invalid;
      }
      return Success;
    }

    /** Put a checked header and its bytecode in place, and check the checksum. */
    method Load(header: Header, code: seq<Byte>) returns (ok: bool)
      requires addr % 8 == 0 && header.InRange() && header.length == |code|
      requires HEADER_SIZE + |code| <= FIELDS_END + rest.Length
      modifies this, rest
      ensures HeaderValue() == header && Placed() && Bytecode() == code
      ensures ok <==> header.crc == Bytewise(0, code)
      ensures ok ==> Valid()
    {
      hide Bytewise, Header.InRange;
      Clear(HEADER_SIZE + header.length - FIELDS_END);
      magic, version, length, platform := header.magic, header.version, header.length, header.platform;
      crc32, reserved0, reserved1 := header.crc, header.reserved0, header.reserved1;
      CopyBytecode(code);
      var crc := Checksum();
      ok := crc == crc32;
    }
  }

  lemma LineIsWord(a: nat)
    requires a % 64 == 0
    ensures (4 - a % 4) % 4 == 0
  {
    var k := a / 64;
    assert a == 4 * (16 * k);
    assert a % 4 == 0;
  }

  lemma AlignDown(addr: nat)
    requires addr % 8 == 0
    ensures (addr + HEADER_SIZE) % 64 <= 56
    ensures (addr + (HEADER_SIZE - (addr + HEADER_SIZE) % 64)) % 64 == 0
  {
  }

  /** Store the next field behind those already stored. */
  method Store(a: array<Byte>, ghost done: seq<Byte>, ghost init: seq<Byte>, offset: nat, x: nat, n: nat)
    requires |init| == a.Length && |done| == offset && offset + n <= a.Length && a[..] == done + init[offset..]
    modifies a
    ensures a[..] == done + Stored(x, n) + init[offset + n..]
  {
    var s := Stored(x, n);
    assert forall i :: 0 <= i < a.Length ==> a[i] == a[..][i];
    forall i | 0 <= i < n {
      a[offset + i] := s[i];
    }
    assert forall i :: 0 <= i < a.Length ==> a[..][i] == (done + s + init[offset + n..])[i];
  }

  method WriteFields(a: array<Byte>, h: Header)
    requires a.Length >= FIELDS_SIZE
    modifies a
    ensures a[..] == WithFields(h, old(a[FIELDS_SIZE..]))
  {
    hide Stored, WithFields;
    ghost var init := a[..];
    Store(a, [], init, 0, h.magic, 4);
    ghost var d := [] + Stored(h.magic, 4);
    Store(a, d, init, 4, h.version, 4);
    d := d + Stored(h.version, 4);
    Store(a, d, init, 8, h.length, 4);
    d := d + Stored(h.length, 4);
    Store(a, d, init, 12, h.platform, 8);
    d := d + Stored(h.platform, 8);
    Store(a, d, init, 20, h.crc, 4);
    d := d + Stored(h.crc, 4);
    Store(a, d, init, 24, h.reserved0, 4);
    d := d + Stored(h.reserved0, 4);
    Store(a, d, init, 28, h.reserved1, 4);
    assert init[FIELDS_SIZE..] == old(a[FIELDS_SIZE..]);
    Regroup(h, init[FIELDS_SIZE..]);
  }

  lemma Regroup(h: Header, rest: seq<Byte>)
    ensures [] + Stored(h.magic, 4) + Stored(h.version, 4) + Stored(h.length, 4) + Stored(h.platform, 8) +
            Stored(h.crc, 4) + Stored(h.reserved0, 4) + Stored(h.reserved1, 4) + rest == WithFields(h, rest)
  {
    hide Stored;
    var f0, f1, f2, f3 := Stored(h.magic, 4), Stored(h.version, 4), Stored(h.length, 4), Stored(h.platform, 8);
    var f4, f5, f6 := Stored(h.crc, 4), Stored(h.reserved0, 4), Stored(h.reserved1, 4);
    assert [] + f0 == f0;
    var left := f0 + f1 + f2 + f3;
    assert left == f0 + (f1 + (f2 + f3));
    assert left + f4 + f5 + f6 + rest == left + (f4 + (f5 + (f6 + rest)));
  }

  method CopyBehindFields(a: array<Byte>, ghost h: Header, code: seq<Byte>)
    requires a.Length == HEADER_SIZE + |code| && a[..] == WithFields(h, Zeros(HEADER_SIZE - FIELDS_SIZE + |code|))
    modifies a
    ensures a[..] == Serialized(h, code)
  {
    hide WithFields;
    ghost var front := a[..FIELDS_SIZE];
    FieldsInFront(h, Zeros(HEADER_SIZE - FIELDS_SIZE + |code|), code + Zeros(HEADER_SIZE - FIELDS_SIZE));
    forall i | 0 <= i < |code| {
      a[FIELDS_SIZE + i] := code[i];
    }
    assert a[..FIELDS_SIZE] == front;
    assert a[..] == front + (code + Zeros(HEADER_SIZE - FIELDS_SIZE));
  }

  method WriteOut(h: Header, code: seq<Byte>) returns (bytes: seq<Byte>)
    ensures bytes == Serialized(h, code)
  {
    hide WithFields;
    var out := new Byte[HEADER_SIZE + |code|](_ => 0);
    assert out[FIELDS_SIZE..] == Zeros(HEADER_SIZE - FIELDS_SIZE + |code|);
    WriteFields(out, h);
    CopyBehindFields(out, h, code);
    bytes := out[..];
  }

  lemma FieldsInFront(h: Header, x: seq<Byte>, y: seq<Byte>)
    ensures WithFields(h, x)[..FIELDS_SIZE] == WithFields(h, y)[..FIELDS_SIZE]
    ensures WithFields(h, x) == WithFields(h, x)[..FIELDS_SIZE] + x
    ensures WithFields(h, y) == WithFields(h, y)[..FIELDS_SIZE] + y
  {
    hide Stored;
    var f := WithFields(h, []);
    assert WithFields(h, x) == f + x;
    assert WithFields(h, y) == f + y;
  }

  method DecodeHeader(bytes: seq<Byte>, rt: Runtime) returns (status: Status, header: Header)
    ensures status == Success <==> HeaderAccepted(bytes, rt)
    ensures status == Success ==> header == HeaderOf(bytes)
    ensures status != Success ==> status == Verdict(bytes, rt)
  {
    hide At, Bytewise;
    header := Header(0, 0, 0, 0, 0, 0, 0);
    if |bytes| < HEADER_SIZE {
      return Invalid, header;
    }
    header := header.(magic := At(bytes, 0, 4));
    if header.magic != DB_MAGIC {
      return Invalid, header;
    }
    header := header.(version := At(bytes, 4, 4));
    if header.version != rt.version {
      return VersionError, header;
    }
    header := header.(length := At(bytes, 8, 4));
    if |bytes| != HEADER_SIZE + header.length {
      return Invalid, header;
    }
    header := header.(platform := At(bytes, 12, 8), crc := At(bytes, 20, 4), reserved0 := At(bytes, 24, 4),
                      reserved1 := At(bytes, 28, 4));
    return Success, header;
  }

  /** Serialize a sound database, read it into any other block, serialize that: same status rules, same bytes. */
  method Relocate(db: Block, target: Block, rt: Runtime) returns (status: Status, first: seq<Byte>, second: seq<Byte>)
    requires db != target && db.rest != target.rest && db.Valid()
    requires db.addr % 8 == 0 && target.addr % 8 == 0 && db.magic == DB_MAGIC && db.version == rt.version
    requires HEADER_SIZE + db.length <= FIELDS_END + target.rest.Length
    modifies target, target.rest
    ensures status == Success <==> PlatformAccepted(db.platform, rt)
    ensures status == Success ==>
              && target.Valid() && target.HeaderValue() == db.HeaderValue()
              && target.Bytecode() == db.Bytecode() && first == second
  {
    hide Bytewise, Serialized, HeaderOf;
    status, first := db.Serialize(rt);
    ghost var h, code := db.HeaderValue(), db.Bytecode();
    ReadSerialized(h, code);
    RoundTrip(h, code, rt);
    second := [];
    status := target.DeserializeAt(first, rt);
    if status == Success {
      status, second := target.Serialize(rt);
    }
  }
}
