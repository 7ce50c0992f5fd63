/**
 * The IPv4 header (section 3.1 of RFC 791) as src/header/internet/ipv4.rs
 * reads it: `split_header` checks a slice and splits it into the fixed
 * 20-byte header, the options and the payload, and the getters decode the
 * fields of the fixed header.
 *
 * The source casts the slice to a struct; here the header is its 20 bytes
 * and each getter reads its field at the offset the struct layout gives it.
 * `Encode` writes the fields at the offsets of RFC 791 on its own, and
 * `GettersReadFields` proves the getters read back what it wrote.
 */
module Ipv4 {
  import opened Wrappers
  import opened Primitive
  import opened Ipv4Error
  import opened HeaderIp
  import opened HeaderMacros
  import opened Ipv4Fields
  import opened Ipv4Address

  /** The size of the fixed part of the header. */
  const HEADER_LEN: nat := 20

  /** The fixed header: the bytes of the `Ipv4` struct. */
  type Ipv4Header = b: Bytes | |b| == 20 witness seq(20, _ => 0)

  /** `header_len`: the IHL counts 32-bit words, so the header is a
      multiple of four bytes and at most 60. */
  function HeaderLen(h: Ipv4Header): (n: Byte)
    ensures n % 4 == 0 && n <= 60
    ensures n / 4 == IhlOf(h[0])
  {
    IhlOf(h[0]) * 4
  }

  /** `options_len`: what the header holds beyond the fixed 20 bytes,
      saturating at 0 for an IHL below 5. */
  function OptionsLen(h: Ipv4Header): (n: Byte)
    ensures n <= 40
    ensures HeaderLen(h) >= HEADER_LEN ==> HEADER_LEN + n == HeaderLen(h)
    ensures HeaderLen(h) < HEADER_LEN ==> n == 0
  {
    if HeaderLen(h) >= 20 then HeaderLen(h) - 20 else 0
  }

  /** `version`: always IPv4. */
  function HeaderVersion(h: Ipv4Header): (v: Version)
    ensures VersionValue(v) == 4
  {
    Ipv4
  }

  /** `dscp`: the six DSCP bits, which `Dscp::try_from` accepts. */
  function HeaderDscp(h: Ipv4Header): (d: Dscp)
    ensures d.value == DscpOf(h[1])
    ensures DscpTryFrom(d.value) == Ok(d)
  {
    Dscp(DscpOf(h[1]))
  }

  /** `ecn`: the two ECN bits. The `unwrap` cannot fail, since every
      two-bit value names an `Ecn`. */
  function HeaderEcn(h: Ipv4Header): (e: Ecn)
    ensures EcnTryFrom(EcnOf(h[1])) == Ok(e)
  {
    EcnTryFrom(EcnOf(h[1])).value
  }

  /** `total_len`: the big-endian word at octets 2 and 3. */
  function TotalLen(h: Ipv4Header): (n: U16)
    ensures U16New(n) == h[2..4]
  {
    U16Get(h[2..4])
  }

  /** `id`: the big-endian word at octets 4 and 5. */
  function Id(h: Ipv4Header): (n: U16)
    ensures U16New(n) == h[4..6]
  {
    U16Get(h[4..6])
  }

  /** `Flags`. */
  datatype Flags = LastFrag | MoreFrag | DontFrag

  /** `From<Flags> for u8`. */
  function FlagsValue(f: Flags): Byte
  {
    match f
    case LastFrag => 0
    case MoreFrag => 1
    case DontFrag => 2
  }

  /** `TryFrom<u8> for Flags`: only 0, 1 and 2 name flags. */
  function FlagsTryFrom(value: Byte): (r: Result<Flags, Error>)
    ensures r.Ok? <==> value <= 2
    ensures r.Ok? ==> FlagsValue(r.value) == value
    ensures r.Err? ==> r.error == Unsupported
  {
    match value
    case 0 => Ok(LastFrag)
    case 1 => Ok(MoreFrag)
    case 2 => Ok(DontFrag)
    case _ => Err(Unsupported)
  }

  /** `flags`: `Flags::try_from` of the three flag bits, unwrapped; `None`
      is the panic of that `unwrap`. */
  function HeaderFlags(h: Ipv4Header): (r: Option<Flags>)
    ensures r.Some? <==> FlagsOf(h[6]) <= 2
    ensures r.Some? ==> FlagsValue(r.value) == FlagsOf(h[6])
  {
    var f := FlagsTryFrom(FlagsOf(h[6]));
    if f.Ok? then Some(f.value) else None
  }

  /** `frag_offset`: the word at octets 6 and 7 without its three flag
      bits. */
  function FragOffset(h: Ipv4Header): (n: U16)
    ensures n < 0x2000 && n == U16Get(h[6..8]) % 0x2000
  {
    FragOffsetOf(h[6], h[7])
  }

  /** `ttl`: octet 8. */
  function Ttl(h: Ipv4Header): (t: Byte)
    ensures U8New(t) == h[8..9]
  {
    U8Get(h[8..9])
  }

  /** `protocol`: defined once `check` has accepted the protocol byte, as
      `split_header` ensures. */
  function HeaderProtocol(h: Ipv4Header): (p: Protocol)
    requires ProtocolReprCheck(h[9..10]).Ok?
    ensures ProtocolValue(p) == h[9]
  {
    ProtocolReprGet(h[9..10])
  }

  /** `checksum`: the big-endian word at octets 10 and 11. */
  function HeaderChecksum(h: Ipv4Header): (n: U16)
    ensures U16New(n) == h[10..12]
  {
    U16Get(h[10..12])
  }

  /** `source`: octets 12 to 15. */
  function Source(h: Ipv4Header): (a: Ipv4Addr)
    ensures h[..12] + a + h[16..] == h
  {
    h[12..16]
  }

  /** `destination`: the last four octets. */
  function Destination(h: Ipv4Header): (a: Ipv4Addr)
    ensures h[..16] + a == h
  {
    h[16..20]
  }

  /** The fields of a fixed header, each in its own range. */
  datatype Fields = Fields(
    version: nat, ihl: nat, dscp: nat, ecn: nat, totalLen: U16, id: U16,
    flags: nat, fragOffset: nat, ttl: Byte, protocol: Byte, checksum: U16,
    source: Ipv4Addr, destination: Ipv4Addr)
  {
    predicate InRange()
    {
      version < 16 && ihl < 16 && dscp < 64 && ecn < 4 && flags < 8 && fragOffset < 0x2000
    }
  }

  /** The fixed header of section 3.1 of RFC 791, byte by byte. */
  function Encode(f: Fields): (h: Ipv4Header)
    requires f.InRange()
  {
    [f.version * 16 + f.ihl, f.dscp * 4 + f.ecn,
     f.totalLen / 0x100, f.totalLen % 0x100, f.id / 0x100, f.id % 0x100,
     f.flags * 32 + f.fragOffset / 0x100, f.fragOffset % 0x100,
     f.ttl, f.protocol, f.checksum / 0x100, f.checksum % 0x100]
    + f.source + f.destination
  }

  /** The fields the getters read from a header. */
  function Decode(h: Ipv4Header): (f: Fields)
    ensures f.InRange()
  {
    Fields(VersionOf(h[0]), IhlOf(h[0]), DscpOf(h[1]), EcnOf(h[1]), TotalLen(h), Id(h),
           FlagsOf(h[6]), FragOffset(h), Ttl(h), h[9], HeaderChecksum(h), Source(h), Destination(h))
  }

  /** The getters read back every field `Encode` wrote. */
  lemma GettersReadFields(f: Fields)
    requires f.InRange()
    ensures Decode(Encode(f)) == f
  {
    var h := Encode(f);
    assert h[12..16] == f.source;
    assert h[16..20] == f.destination;
  }

  /** Every header is the encoding of the fields the getters read, so the
      getters lose nothing. */
  lemma EncodeDecode(h: Ipv4Header)
    ensures Encode(Decode(h)) == h
  {
    var e := Encode(Decode(h));
    assert e[0] == h[0] && e[1] == h[1];
    assert e[2] == h[2] && e[3] == h[3] && e[4] == h[4] && e[5] == h[5];
    assert e[6] == h[6] && e[7] == h[7];
    assert e[8] == h[8] && e[9] == h[9] && e[10] == h[10] && e[11] == h[11];
    assert forall i | 12 <= i < 20 :: e[i] == h[i];
  }

  /** The checks `split_header` makes, in its order, each predicate
      including the ones before it. First, a fixed header with version 4. */
  predicate VersionChecked(bytes: Bytes)
  {
    |bytes| >= HEADER_LEN && VersionOf(bytes[0]) == 4
  }

  /** Then the options the IHL announces are present. */
  predicate OptionsChecked(bytes: Bytes)
  {
    VersionChecked(bytes) && |bytes| >= HEADER_LEN + OptionsLen(bytes[..20])
  }

  /** Then the three flag bits are at most 3. */
  predicate FlagsChecked(bytes: Bytes)
  {
    OptionsChecked(bytes) && FlagsOf(bytes[6]) <= 3
  }

  /** Then the protocol number is a known one. */
  predicate ProtocolChecked(bytes: Bytes)
  {
    FlagsChecked(bytes) && bytes[9] in PROTOCOL_NUMBERS
  }

  /** What `split_header` accepts: every check passes, the last being a
      header checksum that verifies over the `header_len` bytes. */
  predicate Acceptable(bytes: Bytes)
  {
    ProtocolChecked(bytes) && ChecksumVerifies(bytes[..HeaderLen(bytes[..20])])
  }

  /** The header checksum verifies: the word sum is a non-zero multiple of
      0xFFFF, so its ones'-complement fold is all ones. */
  predicate ChecksumVerifies(header: Bytes)
  {
    var sum := BeWordSum(header);
    sum > 0 && sum % 0xFFFF == 0
  }

  /** `split_header`. */
  function SplitHeader(bytes: Bytes): (r: Result<(Ipv4Header, Bytes, Bytes), Error>)
    ensures r.Ok? <==> Acceptable(bytes)
    ensures |bytes| < HEADER_LEN ==> r == Err(Truncated)
    ensures |bytes| >= HEADER_LEN && VersionOf(bytes[0]) != 4 ==> r == Err(Unsupported)
    ensures VersionChecked(bytes) && !OptionsChecked(bytes) ==> r == Err(Truncated)
    ensures OptionsChecked(bytes) && !FlagsChecked(bytes) ==> r == Err(Malformed)
    ensures FlagsChecked(bytes) && !ProtocolChecked(bytes) ==> r == Err(Unsupported)
    ensures ProtocolChecked(bytes) && !Acceptable(bytes) ==> r == Err(Malformed)
    ensures r.Ok? ==>
      var (h, options, payload) := r.value;
      h == bytes[..HEADER_LEN] && |options| == OptionsLen(h) && h + options + payload == bytes
      && ProtocolReprCheck(h[9..10]).Ok?
  {
    var split := AsHeader(HEADER_LEN, bytes);
    if split.Err? then Err(split.error)
    else
      var h: Ipv4Header := split.value.0;
      var optionsPayload := split.value.1;
      if VersionOf(h[0]) != 4 then Err(Unsupported)
      else if |optionsPayload| < OptionsLen(h) then Err(Truncated)
      else if FlagsOf(h[6]) > 3 then Err(Malformed)
      else if ProtocolReprCheck(h[9..10]).Err? then Err(ProtocolReprCheck(h[9..10]).error)
      else
        var header := bytes[..HeaderLen(h)];
        BeWordSumBound(header);
        var checked := VerifyChecksum(header);
        if checked.Err? then Err(checked.error)
        else
          assert h + optionsPayload[..OptionsLen(h)] + optionsPayload[OptionsLen(h)..] == bytes;
          Ok((h, optionsPayload[..OptionsLen(h)], optionsPayload[OptionsLen(h)..]))
  }

  /** An IHL of 1 announces a 4-byte header, shorter than the fixed part:
      `split_header` does not reject it, checks the checksum over those
      4 bytes only, and returns no options. */
  lemma ShortIhlAccepted()
    ensures var b: Bytes := [0x41, 0x00, 0xBE, 0xFF, 0, 0, 0, 0, 0, 0x11] + seq(10, _ => 0);
      var r := SplitHeader(b);
      r.Ok? && HeaderLen(r.value.0) == 4 && r.value.1 == [] && r.value.2 == []
  {
    var b: Bytes := [0x41, 0x00, 0xBE, 0xFF, 0, 0, 0, 0, 0, 0x11] + seq(10, _ => 0);
    var h: Bytes := [0x41, 0x00, 0xBE, 0xFF];
    assert b[..20] == b && b[..4] == h;
    assert h[2..][2..] == [];
    assert BeWordSum(h) == 0xFFFF;
  }

  /** A header with DF and MF both set (flags 3): `split_header` accepts it,
      but `Flags::try_from` knows only 0, 1 and 2, so `flags()` panics. */
  const FLAGS_THREE: Bytes := [0x45, 0x00, 0x00, 0x73, 0x00, 0x00, 0x60, 0x00, 0x40, 0x11,
                               0x98, 0x61, 0xC0, 0xA8, 0x00, 0x01, 0xC0, 0xA8, 0x00, 0xC7]

  /** That header has version 4, a 20-byte header length, flags 3 and
      the UDP protocol. */
  lemma FlagsThreeFields(b: Bytes)
    requires b == FLAGS_THREE
    ensures |b| == 20 && VersionOf(b[0]) == 4 && HeaderLen(b) == 20
    ensures FlagsOf(b[6]) == 3 && b[9] in PROTOCOL_NUMBERS
  {
  }

  /** Its words add up to three times 0xFFFF, so its checksum verifies. */
  lemma FlagsThreeSum(b: Bytes)
    requires b == FLAGS_THREE
    ensures BeWordSum(b) == 0x2_FFFD
  {
    assert BeWordSumFrom(b, 0) == 0x2_FFFD;
    BeWordSumFromSuffix(b, 0);
    assert b[0..] == b;
  }

  /** Any 20-byte header with version 4, flags 3, a known protocol and a
      verifying checksum is accepted, and its `flags()` panics. */
  lemma AcceptedWithFlagsThree(b: Bytes)
    requires |b| == 20 && VersionOf(b[0]) == 4 && HeaderLen(b) == 20
    requires FlagsOf(b[6]) == 3 && b[9] in PROTOCOL_NUMBERS
    requires BeWordSum(b) > 0 && BeWordSum(b) % 0xFFFF == 0
    ensures var r := SplitHeader(b); r.Ok? && HeaderFlags(r.value.0).None?
  {
    assert b[..20] == b;
  }

  /** `split_header` with the two checks its getters and RFC 791 rely on:
      a header of at least five words, and flags `Flags::try_from` accepts.
      A header that `split_header` accepts but fails either is `Malformed`;
      every other outcome is that of `split_header`. */
  function SplitHeaderStrict(bytes: Bytes): (r: Result<(Ipv4Header, Bytes, Bytes), Error>)
    ensures r.Ok? <==> Acceptable(bytes) && IhlOf(bytes[0]) >= 5 && FlagsOf(bytes[6]) <= 2
    ensures r.Ok? ==> HeaderLen(r.value.0) >= HEADER_LEN && HeaderFlags(r.value.0).Some?
    ensures r.Ok? || SplitHeader(bytes).Err? ==> r == SplitHeader(bytes)
    ensures r.Err? && SplitHeader(bytes).Ok? ==> r == Err(Malformed)
  {
    match SplitHeader(bytes)
    case Err(e) => Err(e)
    case Ok((h, options, payload)) =>
      if IhlOf(h[0]) < 5 || FlagsOf(h[6]) > 2 then Err(Malformed) else Ok((h, options, payload))
  }

  /** The short-IHL header that `split_header` accepts is `Malformed` once
      the IHL is checked. */
  lemma StrictRejectsShortIhl()
    ensures SplitHeaderStrict([0x41, 0x00, 0xBE, 0xFF, 0, 0, 0, 0, 0, 0x11] + seq(10, _ => 0)) == Err(Malformed)
  {
    ShortIhlAccepted();
  }

  /** The unit test: 19 zero bytes are `Truncated`. */
  lemma ShortHeader()
    ensures SplitHeader(seq(19, _ => 0)) == Err(Truncated)
  {
  }
}
