/** Bytes and small helpers that several components share. */
module Common {

  type Byte = x: int | 0 <= x < 256

  datatype Option<T> = None | Some(value: T)

  function Min(a: nat, b: nat): nat { if a < b then a else b }

  /** A letter of the ASCII alphabet: has distinct upper-case and lower-case forms. */
  predicate IsAlpha(c: Byte) { 0x41 <= c <= 0x5a || 0x61 <= c <= 0x7a }
}
