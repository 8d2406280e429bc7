// Bytes, machine-integer bounds, results, and the little-endian fields of on-disk structures.
module Basics {

  type Byte = x: int | 0 <= x < 256

  const U16_MAX: int := 0xFFFF
  const U32_MAX: int := 0xFFFF_FFFF
  const U64_MAX: int := 0xFFFF_FFFF_FFFF_FFFF

  type U32 = x: int | 0 <= x <= U32_MAX
  type U64 = x: int | 0 <= x <= U64_MAX

  datatype Option<+T> = None | Some(value: T)

  /** A value or an error. */
  datatype Result<+T, +E> = Ok(value: T) | Err(error: E)

  function Min(a: int, b: int): int {
    if a <= b then a else b
  }

  function Max(a: int, b: int): int {
    if a <= b then b else a
  }

  /** Subtraction that stops at zero, like Rust's `saturating_sub` on unsigned integers. */
  function SatSub(a: int, b: int): nat {
    if a >= b then a - b else 0
  }

  /** The `width` bytes at `at` as an unsigned little-endian number. */
  function Le(bytes: seq<Byte>, at: nat, width: nat): (n: nat)
    requires at + width <= |bytes|
    decreases width
  {
    if width == 0 then 0 else bytes[at] + 256 * Le(bytes, at + 1, width - 1)
  }

  /** The little-endian encoding of `n` in `width` bytes. */
  function ToLe(n: nat, width: nat): (bytes: seq<Byte>)
    ensures |bytes| == width
    decreases width
  {
    if width == 0 then [] else [n % 256] + ToLe(n / 256, width - 1)
  }

  /** The numbers in two, four and eight bytes, lowest byte first. */
  function Half(bytes: seq<Byte>, at: nat): nat
    requires at + 2 <= |bytes|
  {
    var a: int, b: int := bytes[at], bytes[at + 1];
    a + 0x100 * b
  }

  function Word(bytes: seq<Byte>, at: nat): nat
    requires at + 4 <= |bytes|
  {
    var a: int, b: int, c: int, d: int := bytes[at], bytes[at + 1], bytes[at + 2], bytes[at + 3];
    a + 0x100 * b + 0x1_0000 * c + 0x100_0000 * d
  }

  function Long(bytes: seq<Byte>, at: nat): nat
    requires at + 8 <= |bytes|
  {
    Word(bytes, at) + 0x1_0000_0000 * Word(bytes, at + 4)
  }

  lemma FieldsAreNumbers(bytes: seq<Byte>, at: nat)
    ensures at + 2 <= |bytes| ==> Le(bytes, at, 2) == Half(bytes, at)
    ensures at + 4 <= |bytes| ==> Le(bytes, at, 4) == Word(bytes, at)
    ensures at + 8 <= |bytes| ==> Le(bytes, at, 8) == Word(bytes, at) + 0x1_0000_0000 * Word(bytes, at + 4)
  {
  }

  function Pow256(width: nat): (p: nat)
    ensures p > 0
  {
    if width == 0 then 1 else 256 * Pow256(width - 1)
  }

  lemma {:induction false} LeBound(bytes: seq<Byte>, at: nat, width: nat)
    requires at + width <= |bytes|
    ensures Le(bytes, at, width) < Pow256(width)
    decreases width
  {
    if width > 0 {
      LeBound(bytes, at + 1, width - 1);
    }
  }

  /** Encoding a number that fits and reading the field back gives the number. */
  lemma {:induction false} LeRoundTrip(bytes: seq<Byte>, at: nat, n: nat, width: nat)
    requires n < Pow256(width)
    requires at + width <= |bytes|
    requires bytes[at..at + width] == ToLe(n, width)
    ensures Le(bytes, at, width) == n
    decreases width
  {
    if width > 0 {
      assert bytes[at] == bytes[at..at + width][0] == n % 256;
      assert bytes[at + 1..at + width] == bytes[at..at + width][1..] == ToLe(n / 256, width - 1);
      LeRoundTrip(bytes, at + 1, n / 256, width - 1);
    }
  }

  /** Reading a field and encoding it again gives the same bytes. */
  lemma {:induction false} LeInverse(bytes: seq<Byte>, at: nat, width: nat)
    requires at + width <= |bytes|
    ensures ToLe(Le(bytes, at, width), width) == bytes[at..at + width]
    decreases width
  {
    if width > 0 {
      LeInverse(bytes, at + 1, width - 1);
      var n := Le(bytes, at, width);
      assert n % 256 == bytes[at] && n / 256 == Le(bytes, at + 1, width - 1);
      assert bytes[at..at + width] == [bytes[at]] + bytes[at + 1..at + width];
    }
  }
}
