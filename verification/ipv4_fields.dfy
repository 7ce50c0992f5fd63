/**
 * The bit fields of the IPv4 header (src/header/internet/ipv4.rs): the
 * version/IHL byte, the DSCP/ECN byte and the flags/fragment-offset word.
 *
 * Each field struct of the source is a view of header bytes whose setters
 * overwrite those bytes in place; here each is a class over an array of
 * one or two bytes. The masks and shifts are written as division and
 * remainder by powers of two on the byte value. A left shift of a `u8`
 * drops the bits shifted out, which is the `% 16`, `% 64` and `% 8` on the
 * value a setter stores.
 */
module Ipv4Fields {
  import opened Primitive

  /** `VerIhl::version`: the high nibble. */
  function VersionOf(b: Byte): (v: Byte)
    ensures v < 16
  {
    b / 16
  }

  /** `VerIhl::header_len`: the low nibble, the IHL in 32-bit words. */
  function IhlOf(b: Byte): (v: Byte)
    ensures v < 16
  {
    b % 16
  }

  /** The byte `_set_version` leaves: the low nibble kept. */
  function WithVersion(b: Byte, value: Byte): (r: Byte)
    ensures VersionOf(r) == value % 16 && IhlOf(r) == IhlOf(b)
  {
    b % 16 + value % 16 * 16
  }

  /** The byte `_set_header_len` leaves: the high nibble kept. */
  function WithIhl(b: Byte, value: Byte): (r: Byte)
    ensures IhlOf(r) == value % 16 && VersionOf(r) == VersionOf(b)
  {
    b / 16 * 16 + value % 16
  }

  /** `DiffServ::dscp`: the high six bits. */
  function DscpOf(b: Byte): (v: Byte)
    ensures v < 64
  {
    b / 4
  }

  /** `DiffServ::ecn`: the low two bits. */
  function EcnOf(b: Byte): (v: Byte)
    ensures v < 4
  {
    b % 4
  }

  /** The byte `_set_dscp` leaves: the ECN bits kept. */
  function WithDscp(b: Byte, value: Byte): (r: Byte)
    ensures DscpOf(r) == value % 64 && EcnOf(r) == EcnOf(b)
  {
    b % 4 + value % 64 * 4
  }

  /** The byte `_set_ecn` leaves: the DSCP bits kept. */
  function WithEcn(b: Byte, value: Byte): (r: Byte)
    ensures EcnOf(r) == value % 4 && DscpOf(r) == DscpOf(b)
  {
    b / 4 * 4 + value % 4
  }

  /** `FlagsFragOffset::flags`: the high three bits of the first byte. */
  function FlagsOf(b0: Byte): (v: Byte)
    ensures v < 8
  {
    b0 / 32
  }

  /** `FlagsFragOffset::frag_offset`: the low 13 bits of the big-endian
      word. */
  function FragOffsetOf(b0: Byte, b1: Byte): (v: U16)
    ensures v < 0x2000
    ensures v == U16Get([b0, b1]) % 0x2000
  {
    b0 % 32 * 0x100 + b1
  }

  /** The first byte `_set_flags` leaves: the offset bits kept. */
  function WithFlags(b0: Byte, b1: Byte, value: Byte): (r: Byte)
    ensures FlagsOf(r) == value % 8 && FragOffsetOf(r, b1) == FragOffsetOf(b0, b1)
  {
    b0 % 32 + value % 8 * 32
  }

  /** The two bytes `_set_frag_offset` leaves: the flags kept, the offset
      taken from the big-endian bytes of `value` with its top three bits
      dropped. */
  function WithFragOffset(b0: Byte, value: U16): (r: (Byte, Byte))
    ensures FragOffsetOf(r.0, r.1) == value % 0x2000 && FlagsOf(r.0) == FlagsOf(b0)
  {
    var bytes := U16New(value);
    FragOffsetBytes(b0, value);
    (b0 / 32 * 32 + bytes[0] % 32, bytes[1])
  }

  /** The arithmetic behind `WithFragOffset`: the low five bits of the high
      byte and the low byte make up the low 13 bits of the word, and the
      flags bits of the first byte are untouched. */
  lemma FragOffsetBytes(b0: Byte, value: U16)
    ensures var r0 := b0 / 32 * 32 + value / 0x100 % 32;
      && r0 < 0x100 && r0 / 32 == b0 / 32 && r0 % 32 == value / 0x100 % 32
      && value / 0x100 % 32 * 0x100 + value % 0x100 == value % 0x2000
  {
    var h := value / 0x100;
    var l := value % 0x100;
    assert value == h / 32 * 0x2000 + (h % 32 * 0x100 + l);
    assert h % 32 * 0x100 + l < 0x2000;
  }

  /** `VerIhl`: a view of the first header byte. */
  class VerIhl {
    const bytes: array<Byte>

    constructor (bytes: array<Byte>)
      requires bytes.Length == 1
      ensures this.bytes == bytes
    {
      this.bytes := bytes;
    }

    function Version(): Byte
      requires bytes.Length == 1
      reads bytes
    {
      VersionOf(bytes[0])
    }

    function HeaderLen(): Byte
      requires bytes.Length == 1
      reads bytes
    {
      IhlOf(bytes[0])
    }

    /** `_set_version`: the new version reads back, the IHL is unchanged. */
    method SetVersion(value: Byte)
      requires bytes.Length == 1
      modifies bytes
      ensures bytes[0] == WithVersion(old(bytes[0]), value)
      ensures value < 16 ==> Version() == value
      ensures HeaderLen() == old(HeaderLen())
    {
      bytes[0] := WithVersion(bytes[0], value);
    }

    /** `_set_header_len`: the new IHL reads back, the version is unchanged. */
    method SetHeaderLen(value: Byte)
      requires bytes.Length == 1
      modifies bytes
      ensures bytes[0] == WithIhl(old(bytes[0]), value)
      ensures value < 16 ==> HeaderLen() == value
      ensures Version() == old(Version())
    {
      bytes[0] := WithIhl(bytes[0], value);
    }
  }

  /** `DiffServ`: a view of the second header byte. */
  class DiffServ {
    const bytes: array<Byte>

    constructor (bytes: array<Byte>)
      requires bytes.Length == 1
      ensures this.bytes == bytes
    {
      this.bytes := bytes;
    }

    function Dscp(): Byte
      requires bytes.Length == 1
      reads bytes
    {
      DscpOf(bytes[0])
    }

    function Ecn(): Byte
      requires bytes.Length == 1
      reads bytes
    {
      EcnOf(bytes[0])
    }

    /** `_set_dscp`: the new DSCP reads back, the ECN is unchanged. */
    method SetDscp(value: Byte)
      requires bytes.Length == 1
      modifies bytes
      ensures bytes[0] == WithDscp(old(bytes[0]), value)
      ensures value < 64 ==> Dscp() == value
      ensures Ecn() == old(Ecn())
    {
      bytes[0] := WithDscp(bytes[0], value);
    }

    /** `_set_ecn`: the new ECN reads back, the DSCP is unchanged. */
    method SetEcn(value: Byte)
      requires bytes.Length == 1
      modifies bytes
      ensures bytes[0] == WithEcn(old(bytes[0]), value)
      ensures value < 4 ==> Ecn() == value
      ensures Dscp() == old(Dscp())
    {
      bytes[0] := WithEcn(bytes[0], value);
    }
  }

  /** `FlagsFragOffset`: a view of header bytes 6 and 7. */
  class FlagsFragOffset {
    const bytes: array<Byte>

    constructor (bytes: array<Byte>)
      requires bytes.Length == 2
      ensures this.bytes == bytes
    {
      this.bytes := bytes;
    }

    function Flags(): Byte
      requires bytes.Length == 2
      reads bytes
    {
      FlagsOf(bytes[0])
    }

    function FragOffset(): U16
      requires bytes.Length == 2
      reads bytes
    {
      FragOffsetOf(bytes[0], bytes[1])
    }

    /** `_set_flags`: the new flags read back, the offset is unchanged. */
    method SetFlags(value: Byte)
      requires bytes.Length == 2
      modifies bytes
      ensures bytes[0] == WithFlags(old(bytes[0]), old(bytes[1]), value) && bytes[1] == old(bytes[1])
      ensures value < 8 ==> Flags() == value
      ensures FragOffset() == old(FragOffset())
    {
      bytes[0] := WithFlags(bytes[0], bytes[1], value);
    }

    /** `_set_frag_offset`: the new offset reads back, the flags are
        unchanged. */
    method SetFragOffset(value: U16)
      requires bytes.Length == 2
      modifies bytes
      ensures (bytes[0], bytes[1]) == WithFragOffset(old(bytes[0]), value)
      ensures value < 0x2000 ==> FragOffset() == value
      ensures Flags() == old(Flags())
    {
      var r := WithFragOffset(bytes[0], value);
      bytes[0] := r.0;
      bytes[1] := r.1;
    }
  }
}
