/**
 * The IEEE 802.15.4 MAC header (src/header/link/ieee802154.rs): the frame
 * control field and the header length `from_bytes` derives from it
 * (section 7.2.1.1 of IEEE 802.15.4-2006).
 *
 * The code reads the frame control field as a big-endian `u16` and takes
 * each subfield with a mask and a shift, the frame type in the top three
 * bits. The model keeps those bit positions.
 *
 * The lengths of the addressing fields and of the auxiliary security header
 * are `todo!()` in the source; they are parameters here, `addressingLen` of
 * the frame control word and `securityLen` of the security control byte.
 */
module LinkIeee802154 {
  import opened Wrappers
  import opened Primitive
  import opened HeaderError
  import opened HeaderUtils

  /** `ACK_LENGTH`: frame control and sequence number. */
  const ACK_LENGTH: nat := 3

  /** `FrameType`, an open enumeration of the 3-bit frame type. */
  datatype FrameType = Beacon | Data | Ack | MacCmd | Multi | FragOrFrak | Extended | Unknown(value: Byte)

  /** `FrameType::new`. */
  function FrameTypeNew(value: Byte): (t: FrameType)
    ensures FrameTypeGet(t) == value
    ensures t.Unknown? <==> value !in {0, 1, 2, 3, 5, 6, 7}
  {
    match value
    case 0 => Beacon
    case 1 => Data
    case 2 => Ack
    case 3 => MacCmd
    case 5 => Multi
    case 6 => FragOrFrak
    case 7 => FrameType.Extended
    case _ => FrameType.Unknown(value)
  }

  /** `FrameType::get`. */
  function FrameTypeGet(t: FrameType): Byte
  {
    match t
    case Beacon => 0
    case Data => 1
    case Ack => 2
    case MacCmd => 3
    case Multi => 5
    case FragOrFrak => 6
    case Extended => 7
    case Unknown(value) => value
  }

  /** `AddressingMode`, an open enumeration of the 2-bit addressing mode. */
  datatype AddressingMode = Omitted | Short | Extended | Unknown(value: Byte)

  /** `AddressingMode::new`. */
  function AddressingModeNew(value: Byte): (m: AddressingMode)
    ensures AddressingModeGet(m) == value
    ensures m.Unknown? <==> value !in {0, 2, 3}
  {
    match value
    case 0 => Omitted
    case 2 => Short
    case 3 => AddressingMode.Extended
    case _ => AddressingMode.Unknown(value)
  }

  /** `AddressingMode::get`. */
  function AddressingModeGet(m: AddressingMode): Byte
  {
    match m
    case Omitted => 0
    case Short => 2
    case Extended => 3
    case Unknown(value) => value
  }

  /** `FrameVersion`, an open enumeration of the 2-bit frame version. */
  datatype FrameVersion = Ieee802154_2003 | Ieee802154_2006 | Ieee802154 | Unknown(value: Byte)

  /** `FrameVersion::new`. */
  function FrameVersionNew(value: Byte): (v: FrameVersion)
    ensures FrameVersionGet(v) == value
    ensures v.Unknown? <==> value !in {0, 1, 2}
  {
    match value
    case 0 => Ieee802154_2003
    case 1 => Ieee802154_2006
    case 2 => Ieee802154
    case _ => FrameVersion.Unknown(value)
  }

  /** `FrameVersion::get`. */
  function FrameVersionGet(v: FrameVersion): Byte
  {
    match v
    case Ieee802154_2003 => 0
    case Ieee802154_2006 => 1
    case Ieee802154 => 2
    case Unknown(value) => value
  }

  /** The frame control field, as the two bytes it is cast from. */
  datatype FrameControl = FrameControl(raw: Octets2)
  {
    /** The field as the `u16` the getters mask. */
    function Word(): U16 { U16Get(raw) }

    /** `frame_type`: bits 13 to 15 of the word, the top three bits of
        its first byte. */
    function FrameTypeField(): (t: FrameType)
      ensures FrameTypeGet(t) == Word() / 0x2000
    {
      FrameTypeNew(raw[0] / 32)
    }

    /** `security_enabled`: bit 12. */
    predicate SecurityEnabled()
      ensures SecurityEnabled() <==> Word() / 0x1000 % 2 != 0
    {
      raw[0] / 16 % 2 != 0
    }

    /** `frame_pending`: bit 11. */
    predicate FramePending()
      ensures FramePending() <==> Word() / 0x800 % 2 != 0
    {
      raw[0] / 8 % 2 != 0
    }

    /** `ack_required`: bit 10. */
    predicate AckRequired()
      ensures AckRequired() <==> Word() / 0x400 % 2 != 0
    {
      raw[0] / 4 % 2 != 0
    }

    /** `pan_id_compressed`: bit 9. */
    predicate PanIdCompressed()
      ensures PanIdCompressed() <==> Word() / 0x200 % 2 != 0
    {
      raw[0] / 2 % 2 != 0
    }

    /** `seq_num_suppressed`: bit 7, the top bit of the second byte. */
    predicate SeqNumSuppressed()
      ensures SeqNumSuppressed() <==> Word() / 0x80 % 2 != 0
    {
      raw[1] / 0x80 % 2 != 0
    }

    /** `ie_present`: bit 6. */
    predicate IePresent()
      ensures IePresent() <==> Word() / 0x40 % 2 != 0
    {
      raw[1] / 0x40 % 2 != 0
    }

    /** `dest_addressing_mode`: bits 4 and 5. */
    function DestAddressingMode(): (m: AddressingMode)
      ensures AddressingModeGet(m) == Word() / 0x10 % 4
    {
      LowByteFieldAt4(raw[0], raw[1]);
      AddressingModeNew(raw[1] / 0x10 % 4)
    }

    /** `frame_version`: bits 2 and 3. */
    function FrameVersionField(): (v: FrameVersion)
      ensures FrameVersionGet(v) == Word() / 4 % 4
    {
      LowByteFieldAt2(raw[0], raw[1]);
      FrameVersionNew(raw[1] / 4 % 4)
    }

    /** `src_addressing_mode`: bits 0 and 1. */
    function SrcAddressingMode(): (m: AddressingMode)
      ensures AddressingModeGet(m) == Word() % 4
    {
      AddressingModeNew(raw[1] % 4)
    }
  }

  function Bit(b: bool): nat { if b then 1 else 0 }

  /** The subfields occupy disjoint bit ranges which, with the reserved
      bit 8 (the low bit of the first byte), make up the whole word: the
      word is the sum of each field shifted to its position. */
  lemma FrameControlLayout(fc: FrameControl)
    ensures fc.Word() == FrameTypeGet(fc.FrameTypeField()) * 0x2000
        + Bit(fc.SecurityEnabled()) * 0x1000 + Bit(fc.FramePending()) * 0x800
        + Bit(fc.AckRequired()) * 0x400 + Bit(fc.PanIdCompressed()) * 0x200
        + fc.raw[0] as int % 2 * 0x100 + Bit(fc.SeqNumSuppressed()) * 0x80 + Bit(fc.IePresent()) * 0x40
        + AddressingModeGet(fc.DestAddressingMode()) * 0x10
        + FrameVersionGet(fc.FrameVersionField()) * 4
        + AddressingModeGet(fc.SrcAddressingMode())
  {
    var hi, lo := fc.raw[0], fc.raw[1];
    FirstByteLayout(hi);
    SecondByteLayout(lo);
    FieldsOfBytes(fc);
    assert fc.Word() == hi as int * 0x100 + lo;
  }

  /** Each getter reads its bits from one of the two bytes. */
  lemma FieldsOfBytes(fc: FrameControl)
    ensures var hi, lo := fc.raw[0], fc.raw[1];
      && FrameTypeGet(fc.FrameTypeField()) == hi / 32
      && Bit(fc.SecurityEnabled()) == hi / 16 % 2 && Bit(fc.FramePending()) == hi / 8 % 2
      && Bit(fc.AckRequired()) == hi / 4 % 2 && Bit(fc.PanIdCompressed()) == hi / 2 % 2
      && Bit(fc.SeqNumSuppressed()) == lo / 0x80 % 2 && Bit(fc.IePresent()) == lo / 0x40 % 2
      && AddressingModeGet(fc.DestAddressingMode()) == lo / 0x10 % 4
      && FrameVersionGet(fc.FrameVersionField()) == lo / 4 % 4
      && AddressingModeGet(fc.SrcAddressingMode()) == lo % 4
  {
  }

  lemma FirstByteLayout(hi: Byte)
    ensures hi == hi / 32 * 32 + hi / 16 % 2 * 16 + hi / 8 % 2 * 8 + hi / 4 % 2 * 4 + hi / 2 % 2 * 2 + hi % 2
  {
    assert hi / 16 / 2 == hi / 32;
    assert hi / 8 / 2 == hi / 16;
    assert hi / 4 / 2 == hi / 8;
    assert hi / 2 / 2 == hi / 4;
  }

  lemma SecondByteLayout(lo: Byte)
    ensures lo == lo / 0x80 % 2 * 0x80 + lo / 0x40 % 2 * 0x40 + lo / 0x10 % 4 * 0x10 + lo / 4 % 4 * 4 + lo % 4
  {
    assert lo / 0x40 / 2 == lo / 0x80;
    assert lo / 0x10 / 4 == lo / 0x40;
    assert lo / 4 / 4 == lo / 0x10;
  }

  /** The two-bit field at bits 2-3 of the second byte reads the same from
      the word. */
  lemma LowByteFieldAt2(hi: Byte, lo: Byte)
    ensures (hi as int * 0x100 + lo) / 4 % 4 == lo / 4 % 4
  {
    var y := lo / 4;
    assert hi as int * 0x100 + lo == (hi as int * 0x40 + y) * 4 + lo % 4;
    assert hi as int * 0x40 + y == (hi as int * 0x10 + y / 4) * 4 + y % 4;
  }

  /** The two-bit field at bits 4-5 of the second byte reads the same from
      the word. */
  lemma LowByteFieldAt4(hi: Byte, lo: Byte)
    ensures (hi as int * 0x100 + lo) / 0x10 % 4 == lo / 0x10 % 4
  {
    var y := lo / 0x10;
    assert hi as int * 0x100 + lo == (hi as int * 0x10 + y) * 0x10 + lo % 0x10;
    assert hi as int * 0x10 + y == (hi as int * 4 + y / 4) * 4 + y % 4;
  }

  /** The two parse errors. */
  datatype UnsupportedField = Version(version: FrameVersion) | Type(ty: FrameType)

  datatype ParseError = Truncated(truncated: HeaderTruncated) | Unsupported(unsupported: UnsupportedField)

  /** The frame versions whose header layout `from_bytes` knows. */
  predicate VersionSupported(fc: FrameControl)
  {
    fc.FrameVersionField() in {Ieee802154_2003, Ieee802154_2006}
  }

  /** The frame types of IEEE 802.15.4-2006. */
  predicate TypeSupported(fc: FrameControl)
  {
    fc.FrameTypeField() in {Beacon, Data, Ack, MacCmd}
  }

  /** The security control byte of a secured frame other than an
      acknowledgement lies beyond the end of the slice. */
  predicate SecurityByteMissing(fc: FrameControl, bytes: Bytes, addressingLen: FrameControl -> nat)
  {
    fc.SecurityEnabled() && fc.FrameTypeField() != Ack && |bytes| <= ACK_LENGTH + addressingLen(fc) + 1
  }

  /** The length `from_bytes` gives the header of a supported frame: 3 for
      an acknowledgement, else 3 plus the addressing fields plus, when
      security is enabled, the auxiliary security header. Its security
      control byte is read at `3 + addressing_len + 1`, the index the source
      uses; in the MAC header of IEEE 802.15.4 the auxiliary security header
      starts right after the addressing fields, at `3 + addressing_len`, so
      this may be one byte too far. The index is kept as written. */
  function HeaderLen(fc: FrameControl, bytes: Bytes, addressingLen: FrameControl -> nat, securityLen: Byte -> nat): (n: nat)
    requires !SecurityByteMissing(fc, bytes, addressingLen)
    ensures n >= ACK_LENGTH
    ensures fc.FrameTypeField() == Ack ==> n == ACK_LENGTH
    ensures fc.FrameTypeField() != Ack && !fc.SecurityEnabled() ==> n == ACK_LENGTH + addressingLen(fc)
    ensures fc.FrameTypeField() != Ack && fc.SecurityEnabled() ==>
      n == ACK_LENGTH + addressingLen(fc) + securityLen(bytes[ACK_LENGTH + addressingLen(fc) + 1])
  {
    if fc.FrameTypeField() == Ack then ACK_LENGTH
    else if fc.SecurityEnabled() then ACK_LENGTH + addressingLen(fc) + securityLen(bytes[ACK_LENGTH + addressingLen(fc) + 1])
    else ACK_LENGTH + addressingLen(fc)
  }

  /** The final split at the header length. */
  function SplitHeader(bytes: Bytes, n: nat): (r: Result<(Bytes, Bytes), ParseError>)
    ensures r.Err? <==> |bytes| < n
    ensures r.Err? ==> r.error == Truncated(HeaderTruncated)
    ensures r.Ok? ==> |r.value.0| == n && r.value.0 + r.value.1 == bytes
  {
    match SplitAt(bytes, n)
    case Some((header, payload)) => Ok((header, payload))
    case None => Err(Truncated(HeaderTruncated))
  }

  /** `Ieee802154::from_bytes` as written. `None` is the panic of
      `bytes[sc_index]` when the slice is exactly `sc_index` bytes long. */
  function FromBytesAsWritten(bytes: Bytes, addressingLen: FrameControl -> nat, securityLen: Byte -> nat)
    : (r: Option<Result<(Bytes, Bytes), ParseError>>)
    ensures r.None? <==>
      |bytes| >= 2 && VersionSupported(FrameControl(bytes[..2])) && TypeSupported(FrameControl(bytes[..2]))
      && FrameControl(bytes[..2]).FrameTypeField() != Ack && FrameControl(bytes[..2]).SecurityEnabled()
      && |bytes| == ACK_LENGTH + addressingLen(FrameControl(bytes[..2])) + 1
  {
    match AsHeader(2, bytes)
    case Err(e) => Some(Err(Truncated(e)))
    case Ok((fcBytes, _)) =>
      var fc := FrameControl(fcBytes);
      if !VersionSupported(fc) then Some(Err(Unsupported(Version(fc.FrameVersionField()))))
      else if !TypeSupported(fc) then Some(Err(Unsupported(Type(fc.FrameTypeField()))))
      else if fc.FrameTypeField() == Ack then Some(SplitHeader(bytes, ACK_LENGTH))
      else if fc.SecurityEnabled() then
        var scIndex := ACK_LENGTH + addressingLen(fc) + 1;
        if |bytes| >= scIndex then
          if scIndex < |bytes| then Some(SplitHeader(bytes, ACK_LENGTH + addressingLen(fc) + securityLen(bytes[scIndex])))
          else None
        else Some(Err(Truncated(HeaderTruncated)))
      else Some(SplitHeader(bytes, ACK_LENGTH + addressingLen(fc)))
  }

  /** `Ieee802154::from_bytes` with the guard corrected to `>`, so that the
      security control byte is read only when it exists. The checks come in
      order: the frame control width, the version, the type, then the
      header length. */
  function FromBytes(bytes: Bytes, addressingLen: FrameControl -> nat, securityLen: Byte -> nat)
    : (r: Result<(Bytes, Bytes), ParseError>)
    ensures r.Err? && r.error.Unsupported? && r.error.unsupported.Version? <==>
      |bytes| >= 2 && !VersionSupported(FrameControl(bytes[..2]))
    ensures r.Err? && r.error.Unsupported? && r.error.unsupported.Type? <==>
      |bytes| >= 2 && VersionSupported(FrameControl(bytes[..2])) && !TypeSupported(FrameControl(bytes[..2]))
    ensures r.Err? && r.error.Unsupported? ==>
      r.error.unsupported == if r.error.unsupported.Version?
        then Version(FrameControl(bytes[..2]).FrameVersionField())
        else Type(FrameControl(bytes[..2]).FrameTypeField())
    ensures r.Err? && r.error.Truncated? <==>
      |bytes| < 2
      || (var fc := FrameControl(bytes[..2]);
          VersionSupported(fc) && TypeSupported(fc)
          && (SecurityByteMissing(fc, bytes, addressingLen) || |bytes| < HeaderLen(fc, bytes, addressingLen, securityLen)))
    ensures r.Ok? ==>
      var fc := FrameControl(bytes[..2]);
      && !SecurityByteMissing(fc, bytes, addressingLen)
      && |r.value.0| == HeaderLen(fc, bytes, addressingLen, securityLen)
      && r.value.0 + r.value.1 == bytes
  {
    match AsHeader(2, bytes)
    case Err(e) => Err(Truncated(e))
    case Ok((fcBytes, _)) =>
      var fc := FrameControl(fcBytes);
      if !VersionSupported(fc) then Err(Unsupported(Version(fc.FrameVersionField())))
      else if !TypeSupported(fc) then Err(Unsupported(Type(fc.FrameTypeField())))
      else if SecurityByteMissing(fc, bytes, addressingLen) then Err(Truncated(HeaderTruncated))
      else SplitHeader(bytes, HeaderLen(fc, bytes, addressingLen, securityLen))
  }

  /** Wherever the code as written does not panic, it agrees with the
      corrected parse. */
  lemma AsWrittenAgrees(bytes: Bytes, addressingLen: FrameControl -> nat, securityLen: Byte -> nat)
    requires FromBytesAsWritten(bytes, addressingLen, securityLen).Some?
    ensures FromBytesAsWritten(bytes, addressingLen, securityLen).value == FromBytes(bytes, addressingLen, securityLen)
  {
  }

  /** A secured data frame with empty addressing fields, four bytes long:
      `sc_index` is 4, the guard `4 >= 4` holds, and the code as written
      reads past the end of the slice, where the corrected parse reports
      `Truncated`. */
  lemma SecurityIndexOutOfBounds()
    ensures FromBytesAsWritten([0x30, 0x00, 0x00, 0x00], _ => 0, _ => 0).None?
    ensures FromBytes([0x30, 0x00, 0x00, 0x00], _ => 0, _ => 0) == Err(Truncated(HeaderTruncated))
  {
    var fc := FrameControl([0x30, 0x00]);
    assert fc.Word() == 0x3000;
    assert fc.FrameTypeField() == Data && fc.SecurityEnabled();
    assert fc.FrameVersionField() == Ieee802154_2003;
  }

  /** An acknowledgement frame has a 3-byte header whatever follows. */
  lemma AckHeader(bytes: Bytes, addressingLen: FrameControl -> nat, securityLen: Byte -> nat)
    requires |bytes| >= 3
    requires var fc := FrameControl(bytes[..2]); VersionSupported(fc) && fc.FrameTypeField() == Ack
    ensures var r := FromBytes(bytes, addressingLen, securityLen); r.Ok? && r.value.0 == bytes[..3]
  {
  }
}
