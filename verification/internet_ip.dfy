/**
 * IP field types of the current header revision (src/header/internet/ip.rs):
 * the version and protocol numbers as open enumerations, the 6-bit
 * Differentiated Services codepoint and its standard names, and the 2-bit
 * Explicit Congestion Notification.
 */
module InternetIp {
  import opened Wrappers
  import opened Primitive
  import opened HeaderError

  /** `IpVersion`. */
  datatype IpVersion = Ipv4 | Ipv6 | Unknown(value: Byte)

  /** `IpVersion::new`. */
  function IpVersionNew(value: Byte): (v: IpVersion)
    ensures IpVersionGet(v) == value
    ensures v.Unknown? <==> value !in {4, 6}
  {
    match value
    case 4 => Ipv4
    case 6 => Ipv6
    case _ => IpVersion.Unknown(value)
  }

  /** `IpVersion::get`. */
  function IpVersionGet(v: IpVersion): Byte
  {
    match v
    case Ipv4 => 4
    case Ipv6 => 6
    case Unknown(value) => value
  }

  /** `IpProtocol`. */
  datatype IpProtocol =
    | HopByHop | ICMP | IGMP | TCP | UDP | IPv6Route | IPv6Frag | ICMPv6 | IPv6NoNxt | IPv6Opts
    | Unknown(value: Byte)

  /** The protocol numbers `IpProtocol` names. */
  const PROTOCOL_NUMBERS: set<Byte> := {0x00, 0x01, 0x02, 0x06, 0x11, 0x2b, 0x2c, 0x3a, 0x3b, 0x3c}

  /** `IpProtocol::new`. */
  function IpProtocolNew(value: Byte): (p: IpProtocol)
    ensures IpProtocolGet(p) == value
    ensures p.Unknown? <==> value !in PROTOCOL_NUMBERS
  {
    match value
    case 0x00 => HopByHop
    case 0x01 => ICMP
    case 0x02 => IGMP
    case 0x06 => TCP
    case 0x11 => UDP
    case 0x2b => IPv6Route
    case 0x2c => IPv6Frag
    case 0x3a => ICMPv6
    case 0x3b => IPv6NoNxt
    case 0x3c => IPv6Opts
    case _ => IpProtocol.Unknown(value)
  }

  /** `IpProtocol::get`. */
  function IpProtocolGet(p: IpProtocol): Byte
  {
    match p
    case HopByHop => 0x00
    case ICMP => 0x01
    case IGMP => 0x02
    case TCP => 0x06
    case UDP => 0x11
    case IPv6Route => 0x2b
    case IPv6Frag => 0x2c
    case ICMPv6 => 0x3a
    case IPv6NoNxt => 0x3b
    case IPv6Opts => 0x3c
    case Unknown(value) => value
  }

  /** `ProtocolRepr::get`: the protocol field of a header. */
  function ProtocolReprGet(repr: Bytes): (p: IpProtocol)
    requires |repr| == 1
    ensures ProtocolReprFrom(p) == repr
  {
    IpProtocolNew(U8Get(repr))
  }

  /** `From<IpProtocol> for ProtocolRepr`. */
  function ProtocolReprFrom(p: IpProtocol): (repr: Bytes)
    ensures |repr| == 1 && repr[0] == IpProtocolGet(p)
  {
    U8New(IpProtocolGet(p))
  }

  /** A protocol survives the trip through its header field exactly when it
      is one `new` produces: `Unknown(6)` reads back as `TCP`. */
  lemma ProtocolReprRoundTrip(p: IpProtocol)
    ensures ProtocolReprGet(ProtocolReprFrom(p)) == p <==> (p.Unknown? ==> p.value !in PROTOCOL_NUMBERS)
  {
  }

  /** `Dscp`: a codepoint, at most 6 bits wide when built by `try_from`. */
  datatype Dscp = Dscp(value: Byte)

  /** `TryFrom<u8> for Dscp`: `ValueToLarge` above 0b111111. */
  function DscpTryFrom(value: Byte): (r: Result<Dscp, ValueToLarge>)
    ensures r.Ok? <==> value < 64
    ensures r.Ok? ==> DscpValue(r.value) == value
  {
    if value <= 0x3F then Ok(Dscp(value)) else Err(ValueToLarge)
  }

  /** `From<Dscp> for u8`. */
  function DscpValue(d: Dscp): Byte
  {
    d.value
  }

  /** `StdDscp`, the standard codepoint names. */
  datatype StdDscp =
    | CS0 | CS1 | CS2 | CS3 | CS4 | CS5 | CS6 | CS7
    | AF11 | AF12 | AF13 | AF21 | AF22 | AF23 | AF31 | AF32 | AF33 | AF41 | AF42 | AF43
    | EF | VoiceAdmit | LE
    | Unknown(value: Byte)

  /** The codepoints `StdDscp` names. */
  const STD_DSCP_CODEPOINTS: set<Byte> :=
    {0x00, 0x08, 0x10, 0x18, 0x20, 0x28, 0x30, 0x38, 0x0A, 0x0C, 0x0E, 0x12,
     0x14, 0x16, 0x1A, 0x1C, 0x1E, 0x22, 0x24, 0x26, 0x2E, 0x2C, 0x01}

  /** `StdDscp::new`. */
  function StdDscpNew(value: Byte): (s: StdDscp)
    ensures StdDscpGet(s) == value
    ensures s.Unknown? <==> value !in STD_DSCP_CODEPOINTS
  {
    match value
    case 0x00 => CS0
    case 0x08 => CS1
    case 0x10 => CS2
    case 0x18 => CS3
    case 0x20 => CS4
    case 0x28 => CS5
    case 0x30 => CS6
    case 0x38 => CS7
    case 0x0A => AF11
    case 0x0C => AF12
    case 0x0E => AF13
    case 0x12 => AF21
    case 0x14 => AF22
    case 0x16 => AF23
    case 0x1A => AF31
    case 0x1C => AF32
    case 0x1E => AF33
    case 0x22 => AF41
    case 0x24 => AF42
    case 0x26 => AF43
    case 0x2E => EF
    case 0x2C => VoiceAdmit
    case 0x01 => LE
    case _ => StdDscp.Unknown(value)
  }

  /** `StdDscp::get`. */
  function StdDscpGet(s: StdDscp): Byte
  {
    match s
    case CS0 => 0x00
    case CS1 => 0x08
    case CS2 => 0x10
    case CS3 => 0x18
    case CS4 => 0x20
    case CS5 => 0x28
    case CS6 => 0x30
    case CS7 => 0x38
    case AF11 => 0x0A
    case AF12 => 0x0C
    case AF13 => 0x0E
    case AF21 => 0x12
    case AF22 => 0x14
    case AF23 => 0x16
    case AF31 => 0x1A
    case AF32 => 0x1C
    case AF33 => 0x1E
    case AF41 => 0x22
    case AF42 => 0x24
    case AF43 => 0x26
    case EF => 0x2E
    case VoiceAdmit => 0x2C
    case LE => 0x01
    case Unknown(value) => value
  }

  /** Every named codepoint fits in 6 bits, and the class selectors CS0 to
      CS7 are the codepoints `xxx000` (section 4.2.2 of RFC 2474). */
  lemma StdDscpCodepoints(s: StdDscp)
    ensures !s.Unknown? ==> StdDscpGet(s) < 64
    ensures s in {CS0, CS1, CS2, CS3, CS4, CS5, CS6, CS7} ==> StdDscpGet(s) % 8 == 0
    ensures !s.Unknown? && StdDscpGet(s) % 8 == 0 ==> s in {CS0, CS1, CS2, CS3, CS4, CS5, CS6, CS7}
  {
  }

  /** `From<StdDscp> for Dscp`, as written: the value of the name, whatever
      its width. */
  function DscpFromStdAsWritten(s: StdDscp): (d: Dscp)
    ensures DscpValue(d) == StdDscpGet(s)
  {
    Dscp(StdDscpGet(s))
  }

  /** The conversion as written builds from `StdDscp::Unknown(0xFF)` a
      codepoint that `try_from` rejects as too large. */
  lemma DscpFromStdAsWrittenOverflows()
    ensures DscpValue(DscpFromStdAsWritten(StdDscp.Unknown(0xFF))) == 0xFF
    ensures DscpTryFrom(0xFF).Err?
  {
  }

  /** `From<StdDscp> for Dscp`, keeping the 6-bit range of `Dscp`: an
      unknown name wider than 6 bits is `ValueToLarge`. */
  function DscpFromStd(s: StdDscp): (r: Result<Dscp, ValueToLarge>)
    ensures r.Ok? ==> DscpValue(r.value) == StdDscpGet(s) < 64
    ensures !s.Unknown? ==> r.Ok?
    ensures r.Err? <==> StdDscpGet(s) >= 64
  {
    StdDscpCodepoints(s);
    DscpTryFrom(StdDscpGet(s))
  }

  /** `From<Dscp> for StdDscp`. */
  function StdDscpFromDscp(d: Dscp): (s: StdDscp)
    ensures StdDscpGet(s) == DscpValue(d)
    ensures s.Unknown? <==> DscpValue(d) !in STD_DSCP_CODEPOINTS
  {
    StdDscpNew(d.value)
  }

  /** A codepoint goes to its standard name and back unchanged. */
  lemma DscpStdRoundTrip(d: Dscp)
    requires DscpValue(d) < 64
    ensures DscpFromStd(StdDscpFromDscp(d)) == Ok(d)
  {
  }

  /** `Ecn`. */
  datatype Ecn = NonECT | ECT0 | ECT1 | CE | Unknown(value: Byte)

  /** `Ecn::new`. */
  function EcnNew(value: Byte): (e: Ecn)
    ensures EcnGet(e) == value
    ensures e.Unknown? <==> value > 3
  {
    match value
    case 0 => NonECT
    case 2 => ECT0
    case 1 => ECT1
    case 3 => CE
    case _ => Ecn.Unknown(value)
  }

  /** `Ecn::get`. */
  function EcnGet(e: Ecn): Byte
  {
    match e
    case NonECT => 0
    case ECT0 => 2
    case ECT1 => 1
    case CE => 3
    case Unknown(value) => value
  }
}
