/**
 * The UDP header (src/header/transport/udp.rs), section "Format" of
 * RFC 768: source port, destination port, length and checksum, each a
 * big-endian 16-bit field, 8 bytes in all.
 *
 * `from_bytes` only checks the length: the length field is returned as it
 * is, even when it is below the 8 bytes of the header itself.
 */
module TransportUdp {
  import opened Wrappers
  import opened Primitive
  import opened HeaderError
  import opened HeaderUtils

  const HEADER_LEN: nat := 8

  /** The UDP header: the fields as the bytes they are cast from. */
  datatype Udp = Udp(srcPort: Octets2, dstPort: Octets2, len: Octets2, checksum: Octets2)
  {
    /** The 8 bytes the header covers. */
    function ToBytes(): (b: Bytes)
      ensures |b| == HEADER_LEN
    {
      srcPort + dstPort + len + checksum
    }

    /** `source_port`: the value whose big-endian bytes are the field. */
    function SourcePort(): (p: U16)
      ensures U16New(p) == srcPort
    {
      U16Get(srcPort)
    }

    /** `destination_port`. */
    function DestinationPort(): (p: U16)
      ensures U16New(p) == dstPort
    {
      U16Get(dstPort)
    }

    /** `len`: the raw length field, whatever its value. */
    function Len(): (n: U16)
      ensures U16New(n) == len
    {
      U16Get(len)
    }

    /** `_checksum`. */
    function Checksum(): (c: U16)
      ensures U16New(c) == checksum
    {
      U16Get(checksum)
    }
  }

  /** `Udp::from_bytes`: the header at the start of `bytes` and the payload
      after it; `HeaderTruncated` exactly when there are fewer than 8 bytes. */
  function FromBytes(bytes: Bytes): (r: Result<(Udp, Bytes), HeaderTruncated>)
    ensures r.Err? <==> |bytes| < HEADER_LEN
    ensures r.Ok? ==> r.value.0.ToBytes() + r.value.1 == bytes
  {
    match AsHeader(HEADER_LEN, bytes)
    case Err(e) => Err(e)
    case Ok((h, payload)) =>
      var u := Udp(h[0..2], h[2..4], h[4..6], h[6..8]);
      assert u.ToBytes() == h;
      Ok((u, payload))
  }

  /** The four fields are read big-endian at offsets 0, 2, 4 and 6, and the
      payload starts at byte 8. */
  lemma FieldOffsets(bytes: Bytes)
    requires |bytes| >= HEADER_LEN
    ensures var r := FromBytes(bytes);
      && r.Ok?
      && r.value.0.SourcePort() == bytes[0] as int * 0x100 + bytes[1] as int
      && r.value.0.DestinationPort() == bytes[2] as int * 0x100 + bytes[3] as int
      && r.value.0.Len() == bytes[4] as int * 0x100 + bytes[5] as int
      && r.value.0.Checksum() == bytes[6] as int * 0x100 + bytes[7] as int
      && r.value.1 == bytes[8..]
  {
    var r := FromBytes(bytes);
    assert r.value.0.ToBytes() == bytes[..8];
  }

  /** Why `from_bytes_checked` refuses a slice. */
  datatype CheckedError = Truncated | LengthBelowHeader

  /** `Udp::from_bytes` with the length field checked against the 8 bytes
      of the header, so that `len` returns at least 8 as its documentation
      promises; a shorter length field is `LengthBelowHeader`. */
  function FromBytesChecked(bytes: Bytes): (r: Result<(Udp, Bytes), CheckedError>)
    ensures r == Err(Truncated) <==> |bytes| < HEADER_LEN
    ensures r == Err(LengthBelowHeader) <==> |bytes| >= HEADER_LEN && U16Get(bytes[4..6]) < HEADER_LEN
    ensures r.Ok? ==> r.value.0.Len() >= HEADER_LEN && FromBytes(bytes) == Ok(r.value)
  {
    match FromBytes(bytes)
    case Err(_) => Err(Truncated)
    case Ok((u, payload)) =>
      FieldOffsets(bytes);
      if u.Len() < HEADER_LEN then Err(LengthBelowHeader) else Ok((u, payload))
  }

  /** Parsing a serialized header gives back the header and the payload. */
  lemma FromBytesOfBytes(u: Udp, payload: Bytes)
    ensures FromBytes(u.ToBytes() + payload) == Ok((u, payload))
  {
    var t := u.ToBytes();
    assert (t + payload)[..8] == t && (t + payload)[8..] == payload;
    assert t[0..2] == u.srcPort && t[2..4] == u.dstPort && t[4..6] == u.len && t[6..8] == u.checksum;
  }

  /** The unit test: 7 bytes are too few. A length field below 8 is not
      rejected. */
  lemma FromBytesExamples()
    ensures FromBytes(seq(7, _ => 0)) == Err(HeaderTruncated)
    ensures var r := FromBytes(seq(8, _ => 0)); r.Ok? && r.value.0.Len() == 0
  {
    FieldOffsets(seq(8, _ => 0));
  }

  /** The header of 8 zero bytes that `from_bytes` accepts is refused once
      the length field is checked. */
  lemma CheckedRejectsZeroLength()
    ensures FromBytesChecked(seq(8, _ => 0)) == Err(LengthBelowHeader)
  {
    assert seq(8, _ => 0)[4..6] == [0, 0];
  }
}
