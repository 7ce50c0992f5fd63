/**
 * The ARP header (src/header/internet/arp.rs), section "Packet format" of
 * RFC 826 specialised to Ethernet and IPv4 addresses: 28 bytes of hardware
 * type, protocol type, the two address lengths, the operation, and the
 * sender and target address pairs.
 *
 * `from_bytes` only checks the length. No field is validated: the hardware
 * and protocol types decode through open enumerations, and the address
 * lengths are returned as they are, whatever the addresses' widths.
 */
module InternetArp {
  import opened Wrappers
  import opened Primitive
  import opened HeaderError
  import opened HeaderUtils
  import LinkEthernet
  import Ipv4Address

  /** `Hardware`, an open enumeration of link-layer address spaces. */
  datatype Hardware = Ethernet | Unknown(value: U16)

  /** `Hardware::new`. */
  function HardwareNew(value: U16): (h: Hardware)
    ensures HardwareGet(h) == value
    ensures h.Unknown? <==> value != 1
  {
    if value == 1 then Ethernet else Hardware.Unknown(value)
  }

  /** `Hardware::get`. */
  function HardwareGet(h: Hardware): U16
  {
    match h
    case Ethernet => 1
    case Unknown(value) => value
  }

  /** `new` undoes `get` except on an `Unknown` carrying the named code. */
  lemma HardwareRoundTrip(h: Hardware)
    ensures HardwareNew(HardwareGet(h)) == h <==> h != Hardware.Unknown(1)
  {
  }

  /** `Operation`, an open enumeration of ARP operations. */
  datatype Operation = Request | Reply | Unknown(value: U16)

  /** `Operation::new`. */
  function OperationNew(value: U16): (op: Operation)
    ensures OperationGet(op) == value
    ensures op.Unknown? <==> value !in {1, 2}
  {
    match value
    case 1 => Request
    case 2 => Reply
    case _ => Operation.Unknown(value)
  }

  /** `Operation::get`. */
  function OperationGet(op: Operation): U16
  {
    match op
    case Request => 1
    case Reply => 2
    case Unknown(value) => value
  }

  lemma OperationRoundTrip(op: Operation)
    ensures OperationNew(OperationGet(op)) == op <==> !(op.Unknown? && op.value in {1, 2})
  {
  }

  /** `HardwareRepr::get`: the two bytes of the field, big-endian. */
  function HardwareReprGet(repr: Octets2): (h: Hardware)
    ensures HardwareGet(h) == U16Get(repr)
  {
    HardwareNew(U16Get(repr))
  }

  /** `From<Hardware> for HardwareRepr`. */
  function HardwareReprFrom(h: Hardware): (repr: Octets2)
    ensures U16Get(repr) == HardwareGet(h)
  {
    U16New(HardwareGet(h))
  }

  /** Storing a hardware type and reading it back gives its canonical form. */
  lemma HardwareReprRoundTrip(h: Hardware)
    ensures HardwareReprGet(HardwareReprFrom(h)) == HardwareNew(HardwareGet(h))
    ensures h != Hardware.Unknown(1) ==> HardwareReprGet(HardwareReprFrom(h)) == h
  {
    HardwareRoundTrip(h);
  }

  /** `OperationRepr::get`. */
  function OperationReprGet(repr: Octets2): (op: Operation)
    ensures OperationGet(op) == U16Get(repr)
  {
    OperationNew(U16Get(repr))
  }

  /** The conversion into an `OperationRepr` as written: it is implemented
      for `Hardware`, so the operation field receives the bytes of the
      hardware field. */
  function OperationReprFromHardwareAsWritten(h: Hardware): (repr: Octets2)
    ensures U16Get(repr) == HardwareGet(h)
  {
    HardwareReprFrom(h)
  }

  /** Converting `Hardware::Ethernet` gives the field of a `Request`: the
      conversion mixes the two code spaces, and no operation can be
      converted at all. */
  lemma OperationReprFromHardwareMixesCodes()
    ensures OperationReprGet(OperationReprFromHardwareAsWritten(Ethernet)) == Request
  {
  }

  /** The conversion as intended, from an `Operation`. */
  function OperationReprFrom(op: Operation): (repr: Octets2)
    ensures U16Get(repr) == OperationGet(op)
  {
    U16New(OperationGet(op))
  }

  /** Storing an operation and reading it back gives its canonical form. */
  lemma OperationReprRoundTrip(op: Operation)
    ensures OperationReprGet(OperationReprFrom(op)) == OperationNew(OperationGet(op))
    ensures !(op.Unknown? && op.value in {1, 2}) ==> OperationReprGet(OperationReprFrom(op)) == op
  {
    OperationRoundTrip(op);
  }

  const HEADER_LEN: nat := 28

  /** The ARP header: the fields as the bytes they are cast from. */
  datatype Arp = Arp(htype: Octets2, ptype: Octets2, hlen: Byte, plen: Byte, oper: Octets2,
                     srcHaddr: LinkEthernet.EtherAddr, srcPaddr: Ipv4Address.Ipv4Addr,
                     destHaddr: LinkEthernet.EtherAddr, destPaddr: Ipv4Address.Ipv4Addr)
  {
    /** The 28 bytes the header covers, in field order. */
    function ToBytes(): (b: Bytes)
      ensures |b| == HEADER_LEN
    {
      htype + ptype + [hlen, plen] + oper + srcHaddr + srcPaddr + destHaddr + destPaddr
    }

    /** `hardware`. */
    function HardwareType(): (h: Hardware)
      ensures HardwareGet(h) == U16Get(htype)
    {
      HardwareReprGet(htype)
    }

    /** `protocol`: the protocol type in the EtherType numbering. */
    function ProtocolType(): (p: LinkEthernet.EtherType)
      ensures LinkEthernet.EtherTypeGet(p) == U16Get(ptype)
    {
      LinkEthernet.EtherTypeNew(U16Get(ptype))
    }

    /** `hw_addr_len`. */
    function HwAddrLen(): Byte { hlen }

    /** `proto_addr_len`. */
    function ProtoAddrLen(): Byte { plen }

    /** `operation`. */
    function OperationType(): (op: Operation)
      ensures OperationGet(op) == U16Get(oper)
    {
      OperationReprGet(oper)
    }

    /** `src_hw_addr`. */
    function SrcHwAddr(): LinkEthernet.EtherAddr { srcHaddr }

    /** `src_proto_addr`. */
    function SrcProtoAddr(): Ipv4Address.Ipv4Addr { srcPaddr }

    /** `dest_hw_addr`. */
    function DestHwAddr(): LinkEthernet.EtherAddr { destHaddr }

    /** `dest_proto_addr`. */
    function DestProtoAddr(): Ipv4Address.Ipv4Addr { destPaddr }
  }

  /** `Arp::from_bytes`: the header at the start of `bytes` and the payload
      after it; `HeaderTruncated` exactly when there are fewer than 28 bytes. */
  function FromBytes(bytes: Bytes): (r: Result<(Arp, Bytes), HeaderTruncated>)
    ensures r.Err? <==> |bytes| < HEADER_LEN
    ensures r.Ok? ==> r.value.0.ToBytes() + r.value.1 == bytes
  {
    match AsHeader(HEADER_LEN, bytes)
    case Err(e) => Err(e)
    case Ok((h, payload)) =>
      var a := Arp(h[0..2], h[2..4], h[4], h[5], h[6..8], h[8..14], h[14..18], h[18..24], h[24..28]);
      assert a.ToBytes() == h;
      Ok((a, payload))
  }

  /** Every field sits at its RFC 826 offset, and the payload starts at
      byte 28. */
  lemma FieldOffsets(bytes: Bytes)
    requires |bytes| >= HEADER_LEN
    ensures var r := FromBytes(bytes);
      && r.Ok?
      && HardwareGet(r.value.0.HardwareType()) == bytes[0] as int * 0x100 + bytes[1] as int
      && LinkEthernet.EtherTypeGet(r.value.0.ProtocolType()) == bytes[2] as int * 0x100 + bytes[3] as int
      && r.value.0.HwAddrLen() == bytes[4]
      && r.value.0.ProtoAddrLen() == bytes[5]
      && OperationGet(r.value.0.OperationType()) == bytes[6] as int * 0x100 + bytes[7] as int
      && r.value.0.SrcHwAddr() == bytes[8..14]
      && r.value.0.SrcProtoAddr() == bytes[14..18]
      && r.value.0.DestHwAddr() == bytes[18..24]
      && r.value.0.DestProtoAddr() == bytes[24..28]
      && r.value.1 == bytes[28..]
  {
    var r := FromBytes(bytes);
    var b := r.value.0.ToBytes();
    assert b == bytes[..28];
  }

  /** The hardware type is Ethernet exactly when its field reads 1, and the
      operation is a request for 1 and a reply for 2. */
  lemma DecodedCodes(a: Arp)
    ensures a.HardwareType() == Ethernet <==> U16Get(a.htype) == 1
    ensures a.OperationType() == Request <==> U16Get(a.oper) == 1
    ensures a.OperationType() == Reply <==> U16Get(a.oper) == 2
    ensures a.ProtocolType() == LinkEthernet.Ipv4 <==> U16Get(a.ptype) == 0x0800
  {
  }

  /** Parsing a serialized header gives back the header and the payload. */
  lemma FromBytesOfBytes(a: Arp, payload: Bytes)
    ensures FromBytes(a.ToBytes() + payload) == Ok((a, payload))
  {
    var t := a.ToBytes();
    assert (t + payload)[..28] == t && (t + payload)[28..] == payload;
    assert t[0..2] == a.htype && t[2..4] == a.ptype && t[4] == a.hlen && t[5] == a.plen;
    assert t[6..8] == a.oper && t[8..14] == a.srcHaddr && t[14..18] == a.srcPaddr;
    assert t[18..24] == a.destHaddr && t[24..28] == a.destPaddr;
  }

  /** The unit test: 27 bytes are too few. A header whose address lengths
      are not 6 and 4 is still accepted. */
  lemma FromBytesExamples()
    ensures FromBytes(seq(27, _ => 0)) == Err(HeaderTruncated)
    ensures var r := FromBytes(seq(28, _ => 0)); r.Ok? && r.value.0.HwAddrLen() == 0 && r.value.0.ProtoAddrLen() == 0
  {
    FieldOffsets(seq(28, _ => 0));
  }
}
