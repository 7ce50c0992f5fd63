/**
 * The EthernetII header of the older header revision (src/header/ethernet.rs).
 * Unlike the current one it rejects a frame whose EtherType is not one of
 * the three it knows, and its EtherType is a closed enumeration.
 *
 * The `EtherAddr` of this revision has the same octets and the same
 * predicates as the current one; `LinkEthernet` defines them once.
 */
module HeaderEthernet {
  import opened Wrappers
  import opened Primitive
  import opened CrateError
  import HeaderMod
  import LinkEthernet

  type EtherAddr = LinkEthernet.EtherAddr

  /** `EtherType`, closed: only these three protocols are represented. */
  datatype EtherType = Ipv4 | Arp | Ipv6

  /** `From<EtherType> for u16`. */
  function EtherTypeValue(t: EtherType): (v: U16)
    ensures v in {0x0800, 0x0806, 0x86DD}
  {
    match t
    case Ipv4 => 0x0800
    case Arp => 0x0806
    case Ipv6 => 0x86DD
  }

  /** The field bytes of the three known EtherTypes: `IPV4`, `ARP`, `IPV6`. */
  predicate Known(repr: Octets2)
  {
    repr == U16New(0x0800) || repr == U16New(0x0806) || repr == U16New(0x86DD)
  }

  /** `EtherTypeRepr::parse`: the field itself when it holds a known
      EtherType, `Error::Unknown` otherwise. */
  function Parse(repr: Octets2): (r: Result<Octets2, Error>)
    ensures r.Ok? <==> exists t: EtherType :: U16New(EtherTypeValue(t)) == repr
    ensures r.Ok? ==> r.value == repr
    ensures r.Err? ==> r.error == Unknown
  {
    assert U16New(EtherTypeValue(Ipv4)) == U16New(0x0800);
    assert U16New(EtherTypeValue(Arp)) == U16New(0x0806);
    assert U16New(EtherTypeValue(Ipv6)) == U16New(0x86DD);
    if Known(repr) then Ok(repr) else Err(Unknown)
  }

  /** `EtherTypeRepr::get`. The source reaches `unreachable!()` on a field
      that `parse` would have rejected; every header it hands out has been
      parsed, hence the precondition. */
  function Get(repr: Octets2): (t: EtherType)
    requires Known(repr)
    ensures U16New(EtherTypeValue(t)) == repr
  {
    if repr == U16New(0x0800) then Ipv4
    else if repr == U16New(0x0806) then Arp
    else Ipv6
  }

  /** `get` reads back the EtherType whose bytes the field holds. */
  lemma GetOfValue(t: EtherType)
    ensures Known(U16New(EtherTypeValue(t))) && Get(U16New(EtherTypeValue(t))) == t
  {
  }

  /** The EthernetII header of this revision. */
  datatype EthernetII = EthernetII(destination: EtherAddr, source: EtherAddr, ethertype: Octets2)
  {
    function ToBytes(): (b: Bytes)
      ensures |b| == HEADER_LEN
    {
      destination + source + ethertype
    }
  }

  const HEADER_LEN: nat := 14

  /** `EthernetII::split_header`: `Error::Length` below 14 bytes,
      `Error::Unknown` for an unknown EtherType, else the header and its
      payload. */
  function SplitHeader(bytes: Bytes): (r: Result<(EthernetII, Bytes), Error>)
    ensures r.Err? <==> |bytes| < HEADER_LEN || !Known(bytes[12..14])
    ensures r.Err? ==> r.error == (if |bytes| < HEADER_LEN then Length else Unknown)
    ensures r.Ok? ==> r.value.0.ToBytes() + r.value.1 == bytes && Known(r.value.0.ethertype)
  {
    match HeaderMod.AsHeader(HEADER_LEN, bytes)
    case Err(e) => Err(e)
    case Ok((header, payload)) =>
      var h := EthernetII(header[..6], header[6..12], header[12..]);
      match Parse(h.ethertype)
      case Err(e) => Err(e)
      case Ok(_) => Ok((h, payload))
  }

  /** `EthernetII::split_header_mut` on a buffer: the same checks, and the
      windows of the header and of the payload. */
  function SplitHeaderMut(bytes: Bytes): (r: Result<(HeaderMod.Window, HeaderMod.Window), Error>)
    ensures r.Err? <==> SplitHeader(bytes).Err?
    ensures r.Err? ==> r.error == SplitHeader(bytes).error
    ensures r.Ok? ==> r.value == (HeaderMod.Window(0, HEADER_LEN), HeaderMod.Window(HEADER_LEN, |bytes|))
  {
    match HeaderMod.AsHeaderMut(HEADER_LEN, |bytes|)
    case Err(e) => Err(e)
    case Ok((header, payload)) =>
      match Parse(bytes[12..14])
      case Err(e) => Err(e)
      case Ok(_) => Ok((header, payload))
  }

  /** A serialized header with a known EtherType splits back into itself and
      its payload. */
  lemma SplitHeaderOfBytes(h: EthernetII, payload: Bytes)
    requires Known(h.ethertype)
    ensures SplitHeader(h.ToBytes() + payload) == Ok((h, payload))
  {
    var b := h.ToBytes() + payload;
    assert b[..6] == h.destination && b[6..12] == h.source && b[12..14] == h.ethertype;
    assert b[14..] == payload;
  }

  /** A header whose EtherType field holds a known code splits, and its
      EtherType reads back as that code. */
  lemma SplitHeaderKnownType(bytes: Bytes, t: EtherType)
    requires |bytes| >= HEADER_LEN && bytes[12..14] == U16New(EtherTypeValue(t))
    ensures var r := SplitHeader(bytes); r.Ok? && Get(r.value.0.ethertype) == t
  {
    GetOfValue(t);
    var r := SplitHeader(bytes);
    assert r.value.0.ToBytes() + r.value.1 == bytes;
    assert r.value.0.ethertype == bytes[12..14];
  }

  /** The unit tests: 13 bytes are too short and an EtherType 0x0D0E is
      unknown. */
  lemma SplitHeaderRejects()
    ensures SplitHeader([1, 2, 3, 4, 5, 6, 7, 8, 9, 10, 11, 12, 13]) == Err(Length)
    ensures SplitHeader([1, 2, 3, 4, 5, 6, 7, 8, 9, 10, 11, 12, 13, 14]) == Err(Unknown)
  {
  }

  /** The unit tests: the three known codes split. */
  lemma SplitHeaderKnownTypes()
    ensures var r := SplitHeader([1, 2, 3, 4, 5, 6, 7, 8, 9, 10, 11, 12, 0x08, 0x00]);
      r.Ok? && Get(r.value.0.ethertype) == Ipv4
    ensures var r := SplitHeader([1, 2, 3, 4, 5, 6, 7, 8, 9, 10, 11, 12, 0x08, 0x06]);
      r.Ok? && Get(r.value.0.ethertype) == Arp
    ensures var r := SplitHeader([1, 2, 3, 4, 5, 6, 7, 8, 9, 10, 11, 12, 0x86, 0xDD]);
      r.Ok? && Get(r.value.0.ethertype) == Ipv6
  {
    SplitHeaderKnownType([1, 2, 3, 4, 5, 6, 7, 8, 9, 10, 11, 12, 0x08, 0x00], Ipv4);
    SplitHeaderKnownType([1, 2, 3, 4, 5, 6, 7, 8, 9, 10, 11, 12, 0x08, 0x06], Arp);
    SplitHeaderKnownType([1, 2, 3, 4, 5, 6, 7, 8, 9, 10, 11, 12, 0x86, 0xDD], Ipv6);
  }
}
