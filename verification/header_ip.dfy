/**
 * IP field types of the IPv4 header revision (src/header/ip.rs): closed
 * enumerations for the version, protocol, standard DSCP names and ECN,
 * each with a `TryFrom<u8>` that reports `Unsupported` for a number it does
 * not name, and the protocol field cast from header bytes.
 */
module HeaderIp {
  import opened Wrappers
  import opened Primitive
  import opened Ipv4Error

  /** `Version`. */
  datatype Version = Ipv4 | Ipv6

  /** `From<Version> for u8`. */
  function VersionValue(v: Version): Byte
  {
    match v
    case Ipv4 => 4
    case Ipv6 => 6
  }

  /** `TryFrom<u8> for Version`. */
  function VersionTryFrom(value: Byte): (r: Result<Version, Error>)
    ensures r.Ok? <==> value in {4, 6}
    ensures r.Ok? ==> VersionValue(r.value) == value
    ensures r.Err? ==> r.error == Unsupported
  {
    if value == 4 then Ok(Ipv4)
    else if value == 6 then Ok(Ipv6)
    else Err(Unsupported)
  }

  /** `Protocol`. */
  datatype Protocol =
    HopByHop | Icmp | Igmp | Tcp | Udp | Ipv6Route | Ipv6Frag | Icmpv6 | Ipv6NoNxt | Ipv6Opts

  /** `From<Protocol> for u8`. */
  function ProtocolValue(p: Protocol): Byte
  {
    match p
    case HopByHop => 0x00
    case Icmp => 0x01
    case Igmp => 0x02
    case Tcp => 0x06
    case Udp => 0x11
    case Ipv6Route => 0x2b
    case Ipv6Frag => 0x2c
    case Icmpv6 => 0x3a
    case Ipv6NoNxt => 0x3b
    case Ipv6Opts => 0x3c
  }

  /** The protocol numbers `Protocol` names. */
  const PROTOCOL_NUMBERS: set<Byte> := {0x00, 0x01, 0x02, 0x06, 0x11, 0x2b, 0x2c, 0x3a, 0x3b, 0x3c}

  /** `TryFrom<u8> for Protocol`. */
  function ProtocolTryFrom(value: Byte): (r: Result<Protocol, Error>)
    ensures r.Ok? <==> value in PROTOCOL_NUMBERS
    ensures r.Ok? ==> ProtocolValue(r.value) == value
    ensures r.Err? ==> r.error == Unsupported
  {
    match value
    case 0x00 => Ok(HopByHop)
    case 0x01 => Ok(Icmp)
    case 0x02 => Ok(Igmp)
    case 0x06 => Ok(Tcp)
    case 0x11 => Ok(Udp)
    case 0x2b => Ok(Ipv6Route)
    case 0x2c => Ok(Ipv6Frag)
    case 0x3a => Ok(Icmpv6)
    case 0x3b => Ok(Ipv6NoNxt)
    case 0x3c => Ok(Ipv6Opts)
    case _ => Err(Unsupported)
  }

  /** Every protocol converts to its number and back. */
  lemma ProtocolRoundTrip(p: Protocol)
    ensures ProtocolTryFrom(ProtocolValue(p)) == Ok(p)
  {
  }

  /** `ProtocolRepr::check`: the one-byte protocol field names a protocol. */
  function ProtocolReprCheck(repr: Bytes): (r: Result<(), Error>)
    requires |repr| == 1
    ensures r.Ok? <==> exists p: Protocol :: ProtocolReprFrom(p) == repr
    ensures r.Err? ==> r.error == Unsupported
  {
    var t := ProtocolTryFrom(repr[0]);
    if t.Ok? then
      assert ProtocolReprFrom(t.value) == repr;
      Ok(())
    else
      Err(Unsupported)
  }

  /** `ProtocolRepr::get`, whose `unreachable!()` arm the precondition
      (the `check` that must follow every cast) rules out. */
  function ProtocolReprGet(repr: Bytes): (p: Protocol)
    requires |repr| == 1 && ProtocolReprCheck(repr).Ok?
    ensures ProtocolReprFrom(p) == repr
  {
    ProtocolTryFrom(repr[0]).value
  }

  /** `From<Protocol> for ProtocolRepr`. */
  function ProtocolReprFrom(p: Protocol): (repr: Bytes)
    ensures |repr| == 1 && repr[0] == ProtocolValue(p)
  {
    U8New(ProtocolValue(p))
  }

  /** A protocol written to a header field checks and reads back as itself. */
  lemma ProtocolReprRoundTrip(p: Protocol)
    ensures ProtocolReprCheck(ProtocolReprFrom(p)).Ok?
    ensures ProtocolReprGet(ProtocolReprFrom(p)) == p
  {
    ProtocolRoundTrip(p);
  }

  /** `Dscp`. */
  datatype Dscp = Dscp(value: Byte)

  /** `TryFrom<u8> for Dscp`: at most six bits. */
  function DscpTryFrom(value: Byte): (r: Result<Dscp, Error>)
    ensures r.Ok? <==> value < 64
    ensures r.Ok? ==> r.value.value == value
    ensures r.Err? ==> r.error == Unsupported
  {
    if value <= 0x3F then Ok(Dscp(value)) else Err(Unsupported)
  }

  /** `StdDscp`. */
  datatype StdDscp =
    | CS0 | CS1 | CS2 | CS3 | CS4 | CS5 | CS6 | CS7
    | AF11 | AF12 | AF13 | AF21 | AF22 | AF23 | AF31 | AF32 | AF33 | AF41 | AF42 | AF43
    | EF | VoiceAdmit | LE

  /** `From<StdDscp> for u8`. */
  function StdDscpValue(s: StdDscp): (v: Byte)
    ensures v < 64
  {
    match s
    case CS0 => 0x00
    case CS1 => 0x08
    case CS2 => 0x10
    case CS3 => 0x18
    case CS4 => 0x20
    case CS5 => 0x28
    case CS6 => 0x30
    case CS7 => 0x38
    case AF11 => 0x0A
    case AF12 => 0x0C
    case AF13 => 0x0E
    case AF21 => 0x12
    case AF22 => 0x14
    case AF23 => 0x16
    case AF31 => 0x1A
    case AF32 => 0x1C
    case AF33 => 0x1E
    case AF41 => 0x22
    case AF42 => 0x24
    case AF43 => 0x26
    case EF => 0x2E
    case VoiceAdmit => 0x2C
    case LE => 0x01
  }

  /** The codepoints `StdDscp` names. */
  const STD_DSCP_CODEPOINTS: set<Byte> :=
    {0x00, 0x08, 0x10, 0x18, 0x20, 0x28, 0x30, 0x38, 0x0A, 0x0C, 0x0E, 0x12,
     0x14, 0x16, 0x1A, 0x1C, 0x1E, 0x22, 0x24, 0x26, 0x2E, 0x2C, 0x01}

  /** `TryFrom<u8> for StdDscp`. */
  function StdDscpTryFrom(value: Byte): (r: Result<StdDscp, Error>)
    ensures r.Ok? <==> value in STD_DSCP_CODEPOINTS
    ensures r.Ok? ==> StdDscpValue(r.value) == value
    ensures r.Err? ==> r.error == Unsupported
  {
    match value
    case 0x00 => Ok(CS0)
    case 0x08 => Ok(CS1)
    case 0x10 => Ok(CS2)
    case 0x18 => Ok(CS3)
    case 0x20 => Ok(CS4)
    case 0x28 => Ok(CS5)
    case 0x30 => Ok(CS6)
    case 0x38 => Ok(CS7)
    case 0x0A => Ok(AF11)
    case 0x0C => Ok(AF12)
    case 0x0E => Ok(AF13)
    case 0x12 => Ok(AF21)
    case 0x14 => Ok(AF22)
    case 0x16 => Ok(AF23)
    case 0x1A => Ok(AF31)
    case 0x1C => Ok(AF32)
    case 0x1E => Ok(AF33)
    case 0x22 => Ok(AF41)
    case 0x24 => Ok(AF42)
    case 0x26 => Ok(AF43)
    case 0x2E => Ok(EF)
    case 0x2C => Ok(VoiceAdmit)
    case 0x01 => Ok(LE)
    case _ => Err(Unsupported)
  }

  /** `From<StdDscp> for Dscp`. */
  function DscpFromStd(s: StdDscp): (d: Dscp)
    ensures DscpTryFrom(d.value) == Ok(d)
  {
    Dscp(StdDscpValue(s))
  }

  /** `TryFrom<Dscp> for StdDscp`. */
  function StdDscpTryFromDscp(d: Dscp): (r: Result<StdDscp, Error>)
    ensures r.Ok? <==> d.value in STD_DSCP_CODEPOINTS
    ensures r.Ok? ==> DscpFromStd(r.value) == d
    ensures r.Err? ==> r.error == Unsupported
  {
    StdDscpTryFrom(d.value)
  }

  /** A standard name goes to its codepoint and back; the names are
      distinct codepoints. */
  lemma StdDscpRoundTrip(s: StdDscp)
    ensures StdDscpValue(s) in STD_DSCP_CODEPOINTS
    ensures StdDscpTryFromDscp(DscpFromStd(s)) == Ok(s)
  {
  }

  /** `Ecn`. */
  datatype Ecn = NonEct | Ect0 | Ect1 | Ce

  /** `From<Ecn> for u8`. */
  function EcnValue(e: Ecn): Byte
  {
    match e
    case NonEct => 0
    case Ect0 => 2
    case Ect1 => 1
    case Ce => 3
  }

  /** `TryFrom<u8> for Ecn`: every two-bit value is a name. */
  function EcnTryFrom(value: Byte): (r: Result<Ecn, Error>)
    ensures r.Ok? <==> value < 4
    ensures r.Ok? ==> EcnValue(r.value) == value
    ensures r.Err? ==> r.error == Unsupported
  {
    match value
    case 0 => Ok(NonEct)
    case 2 => Ok(Ect0)
    case 1 => Ok(Ect1)
    case 3 => Ok(Ce)
    case _ => Err(Unsupported)
  }

  lemma EcnRoundTrip(e: Ecn)
    ensures EcnTryFrom(EcnValue(e)) == Ok(e)
  {
  }
}
