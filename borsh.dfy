/**
 Fixed-width integers and their little-endian byte layout, the way Borsh
 serialises them: unsigned values least significant byte first, signed
 64-bit values in two's complement. Both the client's instruction encoder
 and the program's account records are built from these pieces.
 */
module Borsh {

  /** A byte, as an integer value. */
  type Byte = x: int | 0 <= x < 0x100

  const U32_LIMIT: int := 0x1_0000_0000
  const U64_LIMIT: int := 0x1_0000_0000_0000_0000
  const I64_MIN: int := -0x8000_0000_0000_0000
  const I64_MAX: int := 0x7FFF_FFFF_FFFF_FFFF

  type U32 = x: int | 0 <= x < 0x1_0000_0000
  type U64 = x: int | 0 <= x < 0x1_0000_0000_0000_0000
  type I64 = x: int | -0x8000_0000_0000_0000 <= x <= 0x7FFF_FFFF_FFFF_FFFF

  /** 256^width: how many distinct values `width` bytes can hold. */
  function Radix(width: nat): (r: nat)
    ensures r >= 1
  {
    if width == 0 then 1 else 0x100 * Radix(width - 1)
  }

  lemma RadixOfWidths()
    ensures Radix(4) == U32_LIMIT && Radix(8) == U64_LIMIT
  {
  }

  /** The `width` low-order bytes of `n`, least significant first. */
  function LE(n: nat, width: nat): (bytes: seq<Byte>)
    ensures |bytes| == width
  {
    if width == 0 then [] else [n % 0x100] + LE(n / 0x100, width - 1)
  }

  /** The unsigned value of `bytes` read least significant first. */
  function FromLE(bytes: seq<Byte>): (n: nat)
    ensures n < Radix(|bytes|)
  {
    if bytes == [] then 0 else bytes[0] + 0x100 * FromLE(bytes[1..])
  }

  /** Reading back what `LE` wrote gives the value, when it fits. */
  lemma {:induction false} FromLEOfLE(n: nat, width: nat)
    requires n < Radix(width)
    ensures FromLE(LE(n, width)) == n
  {
    if width > 0 {
      var rest := LE(n / 0x100, width - 1);
      assert LE(n, width)[1..] == rest;
      FromLEOfLE(n / 0x100, width - 1);
    }
  }

  /** Writing back what `FromLE` read gives the same bytes: the layout is a bijection. */
  lemma {:induction false} LEOfFromLE(bytes: seq<Byte>)
    ensures LE(FromLE(bytes), |bytes|) == bytes
  {
    if bytes != [] {
      var rest := FromLE(bytes[1..]);
      var n := bytes[0] + 0x100 * rest;
      assert n % 0x100 == bytes[0];
      assert n / 0x100 == rest;
      LEOfFromLE(bytes[1..]);
      assert bytes == [bytes[0]] + bytes[1..];
    }
  }

  /** Multiplying by 256 distributes over a value plus a weighted byte. */
  lemma ShiftByte(a: int, r: int, b: int)
    ensures 0x100 * (a + r * b) == 0x100 * a + (0x100 * r) * b
  {
  }

  /** The last byte is the most significant: it weighs `Radix` of the bytes before it. */
  lemma {:induction false} FromLELast(bytes: seq<Byte>)
    requires |bytes| >= 1
    ensures FromLE(bytes) == FromLE(bytes[..|bytes| - 1]) + Radix(|bytes| - 1) * bytes[|bytes| - 1]
  {
    var n := |bytes|;
    if n > 1 {
      var tail, init, last := bytes[1..], bytes[..n - 1], bytes[n - 1];
      FromLELast(tail);
      assert tail[..n - 2] == init[1..];
      assert tail[n - 2] == last;
      var a, r := FromLE(init[1..]), Radix(n - 2);
      assert FromLE(tail) == a + r * last;
      assert FromLE(init) == bytes[0] + 0x100 * a;
      assert FromLE(bytes) == bytes[0] + 0x100 * FromLE(tail);
      assert Radix(n - 1) == 0x100 * r;
      ShiftByte(a, r, last);
    } else {
      assert bytes[1..] == [] && bytes[..0] == [];
    }
  }

  /** Two's complement: the unsigned 64-bit word that stands for `n`. */
  function ToUnsigned64(n: I64): (u: U64)
    ensures u < U64_LIMIT / 2 <==> n >= 0
    ensures u % U64_LIMIT == n % U64_LIMIT
  {
    if n < 0 then n + U64_LIMIT else n
  }

  /** Two's complement: the signed value of the unsigned 64-bit word `u`. */
  function ToSigned64(u: U64): (n: I64)
    ensures ToUnsigned64(n) == u
  {
    if u <= I64_MAX then u else u - U64_LIMIT
  }

  lemma SignedOfUnsigned64(n: I64)
    ensures ToSigned64(ToUnsigned64(n)) == n
  {
  }

  /** A `u32` as Borsh writes it. */
  function U32Bytes(n: U32): (bytes: seq<Byte>)
    ensures |bytes| == 4 && FromLE(bytes) == n
  {
    RadixOfWidths();
    FromLEOfLE(n, 4);
    LE(n, 4)
  }

  /** A `u64` as Borsh writes it. */
  function U64Bytes(n: U64): (bytes: seq<Byte>)
    ensures |bytes| == 8 && FromLE(bytes) == n
  {
    RadixOfWidths();
    FromLEOfLE(n, 8);
    LE(n, 8)
  }

  /** The signed value of eight bytes of two's complement, least significant first. */
  function I64Value(bytes: seq<Byte>): (n: I64)
    requires |bytes| == 8
    ensures ToUnsigned64(n) == FromLE(bytes)
    ensures n < 0 <==> bytes[7] >= 0x80
  {
    RadixOfWidths();
    FromLELast(bytes);
    assert Radix(7) == 0x100_0000_0000_0000;
    ToSigned64(FromLE(bytes))
  }

  /** An `i64` as Borsh writes it. */
  function I64Bytes(n: I64): (bytes: seq<Byte>)
    ensures |bytes| == 8 && I64Value(bytes) == n
  {
    RadixOfWidths();
    FromLEOfLE(ToUnsigned64(n), 8);
    LE(ToUnsigned64(n), 8)
  }

  /** Eight bytes are the encoding of exactly one `i64`. */
  lemma I64BytesOfValue(bytes: seq<Byte>)
    requires |bytes| == 8
    ensures I64Bytes(I64Value(bytes)) == bytes
  {
    RadixOfWidths();
    LEOfFromLE(bytes);
  }
}
