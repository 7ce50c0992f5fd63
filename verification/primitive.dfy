/**
 * Field primitives of the header layer (src/header/primitive.rs): the
 * network-order integer wrappers `U8`, `U16`, `U32`, which hold their value
 * as big-endian bytes.
 *
 * A byte is an integer in [0, 0x100). The masks and shifts the headers apply
 * to bytes are written as the equivalent division and remainder by powers
 * of two: `b >> k` is `b / 2^k`, `b & (2^k - 1)` is `b % 2^k`, and an `|`
 * of disjoint bit ranges is their sum.
 *
 * The open enumerations that the `non_exhaustive_enum!` macro generates are
 * modelled next to the headers that declare them, one datatype per enum,
 * each with the macro's `new`/`get` pair.
 */
module Primitive {

  type Byte = x: int | 0 <= x < 0x100
  type Bytes = seq<Byte>
  /** The byte arrays of the `U16` and `U32` wrappers. */
  type Octets2 = b: Bytes | |b| == 2 witness [0, 0]
  type Octets4 = b: Bytes | |b| == 4 witness [0, 0, 0, 0]

  type U16 = x: int | 0 <= x < 0x1_0000
  type U32 = x: int | 0 <= x < 0x1_0000_0000

  /** `U8::new`. */
  function U8New(v: Byte): (b: Bytes)
    ensures |b| == 1 && U8Get(b) == v
  {
    [v]
  }

  /** `U8::get`. */
  function U8Get(b: Bytes): Byte
    requires |b| == 1
  {
    b[0]
  }

  /** `U16::new`: `to_be_bytes`, most significant byte first. */
  function U16New(v: U16): (b: Bytes)
    ensures |b| == 2 && U16Get(b) == v
  {
    [v / 0x100, v % 0x100]
  }

  /** `U16::get`: `from_be_bytes`. */
  function U16Get(b: Bytes): U16
    requires |b| == 2
  {
    b[0] as int * 0x100 + b[1]
  }

  /** `U32::new`: `to_be_bytes`, most significant byte first. */
  function U32New(v: U32): (b: Bytes)
    ensures |b| == 4 && U32Get(b) == v
  {
    var hi, lo := v / 0x1_0000, v % 0x1_0000;
    [hi / 0x100, hi % 0x100, lo / 0x100, lo % 0x100]
  }

  /** `U32::get`: `from_be_bytes`. */
  function U32Get(b: Bytes): U32
    requires |b| == 4
  {
    (b[0] as int * 0x100 + b[1]) * 0x1_0000 + (b[2] as int * 0x100 + b[3])
  }

  /** `new(get(b)) == b`: with the ensures of the `New` functions, each
      wrapper is a bijection between its integer type and its byte arrays. */
  lemma U16NewGet(b: Bytes)
    requires |b| == 2
    ensures U16New(U16Get(b)) == b
  {
  }

  lemma U32NewGet(b: Bytes)
    requires |b| == 4
    ensures U32New(U32Get(b)) == b
  {
    var hi, lo := b[0] as int * 0x100 + b[1], b[2] as int * 0x100 + b[3];
    assert U32Get(b) / 0x1_0000 == hi && U32Get(b) % 0x1_0000 == lo;
  }

  /** The byte order of the wrappers. */
  lemma NetworkOrderExample()
    ensures U16New(0x0800) == [0x08, 0x00]
    ensures U32New(0xC0A8_0001) == [0xC0, 0xA8, 0x00, 0x01]
  {
  }
}
