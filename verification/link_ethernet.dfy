/**
 * The EthernetII frame header (src/header/link/ethernet.rs): destination and
 * source addresses and the EtherType of the payload, 14 bytes in all.
 */
module LinkEthernet {
  import opened Wrappers
  import opened Primitive
  import opened HeaderError
  import opened HeaderUtils

  /** A 48-bit Ethernet address, as its six network-order octets. */
  type EtherAddr = b: Bytes | |b| == 6 witness [0, 0, 0, 0, 0, 0]

  /** `EtherAddr::BROADCAST`. */
  const BROADCAST: EtherAddr := [0xFF, 0xFF, 0xFF, 0xFF, 0xFF, 0xFF]

  /** `is_unicast`: the individual/group bit of the first octet is clear. */
  predicate IsUnicast(a: EtherAddr): (r: bool)
    ensures r <==> (a[0] as bv8) & 0x01 == 0
  {
    a[0] % 2 == 0
  }

  /** `is_multicast`. */
  predicate IsMulticast(a: EtherAddr): (r: bool)
    ensures r <==> (a[0] as bv8) & 0x01 == 1
  {
    !IsUnicast(a)
  }

  /** `is_broadcast`: every octet is 0xFF. */
  predicate IsBroadcast(a: EtherAddr): (r: bool)
    ensures r <==> a == BROADCAST
  {
    a[0] == 0xFF && a[1] == 0xFF && a[2] == 0xFF && a[3] == 0xFF && a[4] == 0xFF && a[5] == 0xFF
  }

  /** `is_universal`: the universal/local bit of the first octet is clear. */
  predicate IsUniversal(a: EtherAddr): (r: bool)
    ensures r <==> (a[0] as bv8) & 0x02 == 0
  {
    a[0] / 2 % 2 == 0
  }

  /** `is_local`. */
  predicate IsLocal(a: EtherAddr): (r: bool)
    ensures r <==> (a[0] as bv8) & 0x02 == 2
  {
    !IsUniversal(a)
  }

  /** The broadcast address is a locally administered group address. */
  lemma BroadcastIsLocalMulticast(a: EtherAddr)
    requires IsBroadcast(a)
    ensures IsMulticast(a) && !IsUnicast(a) && IsLocal(a) && !IsUniversal(a)
  {
  }

  /** The address classes of the unit tests, which set the first octet of
      the broadcast address to 0xEF, 0xFE, 0xFD and 0xFC. */
  lemma AddressExamples()
    ensures IsBroadcast(BROADCAST) && IsLocal(BROADCAST) && IsMulticast(BROADCAST)
    ensures var a := BROADCAST[0 := 0xEF]; !IsBroadcast(a) && IsLocal(a) && IsMulticast(a)
    ensures var a := BROADCAST[0 := 0xFE]; !IsBroadcast(a) && IsLocal(a) && IsUnicast(a)
    ensures var a := BROADCAST[0 := 0xFD]; !IsBroadcast(a) && IsUniversal(a) && IsMulticast(a)
    ensures var a := BROADCAST[0 := 0xFC]; !IsBroadcast(a) && IsUniversal(a) && IsUnicast(a)
  {
  }

  /** `EtherType`, an open enumeration of the protocol in the payload. */
  datatype EtherType = Ipv4 | Arp | Ipv6 | Unknown(value: U16)

  /** `EtherType::new`: the named variant of a known code, `Unknown`
      otherwise. */
  function EtherTypeNew(value: U16): (t: EtherType)
    ensures EtherTypeGet(t) == value
    ensures t.Unknown? <==> value !in {0x0800, 0x0806, 0x86DD}
  {
    match value
    case 0x0800 => Ipv4
    case 0x0806 => Arp
    case 0x86DD => Ipv6
    case _ => Unknown(value)
  }

  /** `EtherType::get`. */
  function EtherTypeGet(t: EtherType): U16
  {
    match t
    case Ipv4 => 0x0800
    case Arp => 0x0806
    case Ipv6 => 0x86DD
    case Unknown(value) => value
  }

  /** The values `EtherType::new` can produce: an `Unknown` never carries a
      known code. */
  predicate EtherTypeCanonical(t: EtherType)
  {
    t.Unknown? ==> t.value !in {0x0800, 0x0806, 0x86DD}
  }

  /** `new` undoes `get` exactly on the values `new` produces;
      `Unknown(0x0800)` is an `EtherType` whose `get` reads back as `Ipv4`. */
  lemma EtherTypeRoundTrip(t: EtherType)
    ensures EtherTypeNew(EtherTypeGet(t)) == t <==> EtherTypeCanonical(t)
  {
  }

  /** The EthernetII header: the fields as the bytes they are cast from. */
  datatype EthernetII = EthernetII(dst: EtherAddr, src: EtherAddr, ty: Octets2)
  {
    /** The 14 bytes the header covers. */
    function ToBytes(): (b: Bytes)
      ensures |b| == HEADER_LEN
    {
      dst + src + ty
    }

    /** `src`. */
    function Src(): EtherAddr { src }

    /** `dst`. */
    function Dst(): EtherAddr { dst }

    /** `ethertype`: the EtherType field read big-endian. */
    function Ethertype(): (t: EtherType)
      ensures EtherTypeGet(t) == U16Get(ty)
    {
      EtherTypeNew(U16Get(ty))
    }
  }

  const HEADER_LEN: nat := 14

  /** `EthernetII::from_bytes`: the header at the start of `bytes` and the
      payload after it; `HeaderTruncated` when there are fewer than 14
      bytes. Any EtherType is accepted. */
  function FromBytes(bytes: Bytes): (r: Result<(EthernetII, Bytes), HeaderTruncated>)
    ensures r.Err? <==> |bytes| < HEADER_LEN
    ensures r.Ok? ==> r.value.0.ToBytes() + r.value.1 == bytes
  {
    match AsHeader(HEADER_LEN, bytes)
    case Err(e) => Err(e)
    case Ok((header, payload)) =>
      Ok((EthernetII(header[..6], header[6..12], header[12..]), payload))
  }

  /** The destination address is the first six bytes, the source address
      the next six, the EtherType the big-endian word at byte 12, and the
      payload starts at byte 14. */
  lemma FieldOffsets(bytes: Bytes)
    requires |bytes| >= HEADER_LEN
    ensures var r := FromBytes(bytes);
      && r.Ok?
      && r.value.0.Dst() == bytes[..6]
      && r.value.0.Src() == bytes[6..12]
      && EtherTypeGet(r.value.0.Ethertype()) == bytes[12] as int * 0x100 + bytes[13] as int
      && r.value.1 == bytes[14..]
  {
    var r := FromBytes(bytes);
    assert r.value.0.ToBytes() == bytes[..14];
  }

  /** Parsing a serialized header gives back the header and the payload. */
  lemma FromBytesOfBytes(h: EthernetII, payload: Bytes)
    ensures FromBytes(h.ToBytes() + payload) == Ok((h, payload))
  {
    var b := h.ToBytes() + payload;
    assert b[..6] == h.dst && b[6..12] == h.src && b[12..14] == h.ty;
    assert b[14..] == payload;
  }

  /** The unit tests: 13 bytes are too few; 14 zero bytes parse with an
      unknown EtherType 0; the three known codes parse to their variants. */
  lemma FromBytesExamples()
    ensures FromBytes(seq(13, _ => 0)).Err?
    ensures var r := FromBytes(seq(14, _ => 0)); r.Ok? && r.value.0.Ethertype() == Unknown(0)
    ensures var r := FromBytes(seq(12, _ => 0) + [0x08, 0x00]); r.Ok? && r.value.0.Ethertype() == Ipv4
    ensures var r := FromBytes(seq(12, _ => 0) + [0x08, 0x06]); r.Ok? && r.value.0.Ethertype() == Arp
    ensures var r := FromBytes(seq(12, _ => 0) + [0x86, 0xDD]); r.Ok? && r.value.0.Ethertype() == Ipv6
  {
  }
}
