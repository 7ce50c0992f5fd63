# tygress header layer and driver, modelled in Dafny

tygress is a small user-space networking stack in Rust. Its core is a set
of zero-copy header parsers. Each one checks a byte slice and splits it into
a fixed-width header and the rest. Around the parsers sit:

- the Internet checksum (section 1 of RFC 1071);
- network-order integer wrappers and open protocol-code enumerations;
- a driver loop that polls a future and feeds received frames to the parsers;
- a few pure helpers of the Linux glue.

This project models that core and proves what each part promises: length
bounds, field offsets, round trips, the order of the checks, and the loop's
account of what the device delivered.

Several revisions of the header layer coexist in the repository and do not
build together. Each one is its own group of modules here, with its own
error type.

- **Current revision.**
  - `Primitive`: `U8`/`U16`/`U32`, big-endian.
  - `HeaderUtils`: `split_at`, `split_word`, `as_header!`.
  - `Checksum`: `compute_checksum` as a loop, and `verify_checksum`.
  - `LinkEthernet`: EthernetII, and the address bit tests of section 2 of RFC 7042.
  - `LinkIeee802154`: the frame control field and `from_bytes`.
  - `InternetArp`: RFC 826.
  - `InternetIp`: version, protocol, DSCP of section 3 of RFC 2474, ECN of section 5 of RFC 3168.
  - `TransportUdp`: RFC 768.
  - `HeaderError`.
- **IPv4 revision.**
  - `HeaderMacros`: the `Truncated` casts and the single-fold checksum check.
  - `Ipv4`: `split_header` and the getters.
  - `Ipv4Fields`: the bit-field views with their in-place setters, as classes over byte arrays.
  - `Ipv4Address`: the address classifiers, checked against the blocks of section 3 of RFC 1918 and the IANA special-purpose registry.
  - `HeaderIp`: the closed `TryFrom` enumerations of `src/header/ip.rs`, which `ipv4.rs` uses.
  - `Ipv4Error`.
- **Older revisions.**
  - `CrateError`, `HeaderMod` and `HeaderEthernet`: the closed EtherType policy.
  - `ParseMod`: casts with an expected-size check.
- **Driver and OS glue.**
  - `NetDevice`: hardware type and readiness events.
  - `Driver`: `process`, `process_ethernet`, and `turn` as a loop over a scripted device.
  - `NetdevSys`: `ifreq_name` as a loop over an array, the `TUNSETIFF` flag choice, and the `poll` flag and timeout translation.

How the model represents things:

- A byte is an integer in `[0, 0x100)`. Masks and shifts are written as
  division and remainder by powers of two.
- A header the source obtains by casting a slice prefix is modelled by the
  bytes it covers. Each getter reads its field at the offset the struct layout
  gives it.
- Code that changes state is imperative Dafny proved against a specification
  function: the checksum loop, the IPv4 setters, `ifreq_name`, the device and
  the driver loop.

Where the code and its documentation comments disagree, the model follows the
code, a lemma exhibits the difference, and a corrected member beside it states
the documented behaviour (each is a row under "Findings"). Examples:
- `Udp::len` is not checked against 8;
- `is_benchmarking` tests the wrong first octet;
- `split_header` accepts IPv4 flags that `flags()` then rejects.

Where the code is evidently wrong, the model keeps a member that models it as
written, proves the discrepancy on a concrete input, and uses a corrected
member everywhere else (see "Findings").

## Model

| member | source | states |
|---|---|---|
| Primitive.U8New | src/header/primitive.rs:73-83 | `U8::new` stores one byte and `get` reads the same value back |
| Primitive.U16New | src/header/primitive.rs:73-83 | `U16::new` gives two bytes, most significant first, and `get` reads the same value back |
| Primitive.U32New | src/header/primitive.rs:73-83 | `U32::new` gives four bytes, most significant first, and `get` reads the same value back |
| Primitive.U16NewGet | src/header/primitive.rs:73-83 | `new(get(b)) == b` for every two-byte array: `U16` is a bijection |
| Primitive.U32NewGet | src/header/primitive.rs:73-83 | `new(get(b)) == b` for every four-byte array: `U32` is a bijection |
| Primitive.NetworkOrderExample | src/header/primitive.rs:75-77 | 0x0800 and 0xC0A8_0001 are stored in network byte order |
| HeaderUtils.SplitAt | src/header/utils.rs:58-67 | `None` exactly when the slice is shorter than `mid`; otherwise a `mid`-byte prefix and the rest, which concatenate to the slice |
| HeaderUtils.SplitWord | src/header/utils.rs:47-56 | `None` exactly below two bytes; otherwise a word whose little-endian bytes are the first two bytes, and the rest |
| HeaderUtils.AsHeader | src/header/utils.rs:24-44 | `HeaderTruncated` exactly when the slice is shorter than the header; otherwise a header-sized prefix and the payload, which concatenate to the slice |
| Checksum.Fold | src/header/checksum.rs:26-27 | one carry fold keeps the value modulo 0xFFFF, is zero only for zero, never grows, and brings a 32-bit sum to at most 0x1_FFFE |
| Checksum.Checksum | src/header/checksum.rs:26-28 | the second fold fits in 16 bits, so the final `u16` addition never overflows |
| Checksum.ComputeChecksum | src/header/checksum.rs:14-29 | the loop over words and the odd byte computes the folded sum, which is at most 0xFFFF and congruent to the word sum modulo 0xFFFF |
| Checksum.VerifyChecksum | src/header/checksum.rs:3-10 | `Ok` exactly when the word sum is a non-zero multiple of 0xFFFF |
| Checksum.ChecksumMeaning | src/header/checksum.rs:12-29 | the two folds give the ones' complement sum: congruent to the word sum modulo 0xFFFF, and zero only for an all-zero input |
| Checksum.VerifyMeaning | src/header/checksum.rs:3-10 | `verify_checksum` accepts exactly the slices whose word sum is a non-zero multiple of 0xFFFF |
| Checksum.AllOnes | src/header/checksum.rs:5 | a folded value is all ones exactly when the sum it stands for is a non-zero multiple of 0xFFFF |
| Checksum.WordSumBound | src/header/checksum.rs:17-24 | the accumulator never exceeds 0xFFFF per word plus 0xFF for an odd byte |
| Checksum.FitsAccumulator | src/header/checksum.rs:61-63 | any slice of at most 0x20002 bytes fits the `u32` accumulator |
| Checksum.FilledSum | src/header/checksum.rs:63 | `n` bytes 0xFF sum to 0xFFFF per complete word plus 0xFF for an odd last byte |
| Checksum.FilledValid | src/header/checksum.rs:53-65 | an even, non-empty run of 0xFF bytes verifies |
| Checksum.CarriesTwiceValid | src/header/checksum.rs:53-65 | 0x20002 bytes of 0xFF reach the largest sum 0xFFFF_FFFF and verify |
| Checksum.CarriesTwiceInvalid | src/header/checksum.rs:84-93 | `FF FF FF FF 01` sums to 0x1_FFFF, the first fold leaves a carry, and it does not verify |
| Checksum.WordSumOneByte | src/header/checksum.rs:17-24 | changing one byte changes the word sum by the change of that byte, times 0x100 at an odd index |
| Checksum.SingleByteErrorDetected | src/header/checksum.rs:3-10 | a valid slice with any single byte changed no longer verifies |
| Checksum.NotMultiple | src/header/checksum.rs:5 | two multiples of 0xFFFF cannot be closer than 0xFFFF |
| Checksum.VerifyBySum | src/header/checksum.rs:3-10 | a slice with a known word sum verifies exactly when that sum is a non-zero multiple of 0xFFFF |
| Checksum.SampleHeaderValid | src/header/checksum.rs:36-43 | the first header of the unit tests sums to 0x1_FFFE and verifies |
| Checksum.SampleHeader2Valid | src/header/checksum.rs:45-50 | the second header of the unit tests sums to 0x2_FFFD and verifies |
| Checksum.SampleHeaderCorrupted | src/header/checksum.rs:67-74 | the first header with its total length changed does not verify |
| Checksum.SampleHeader2Corrupted | src/header/checksum.rs:76-81 | the second header with its protocol changed does not verify |
| LinkEthernet.IsUnicast | src/header/link/ethernet.rs:92-96 | true exactly when bit 0x01 of the first octet is clear |
| LinkEthernet.IsMulticast | src/header/link/ethernet.rs:98-102 | true exactly when bit 0x01 of the first octet is set |
| LinkEthernet.IsBroadcast | src/header/link/ethernet.rs:104-113 | true exactly when the address is `BROADCAST`, all six octets 0xFF |
| LinkEthernet.IsUniversal | src/header/link/ethernet.rs:115-119 | true exactly when bit 0x02 of the first octet is clear |
| LinkEthernet.IsLocal | src/header/link/ethernet.rs:121-125 | true exactly when bit 0x02 of the first octet is set |
| LinkEthernet.BroadcastIsLocalMulticast | src/header/link/ethernet.rs:77-78 | the broadcast address is a locally administered group address |
| LinkEthernet.AddressExamples | src/header/link/ethernet.rs:207-233 | the five addresses of the unit test fall in the classes it expects |
| LinkEthernet.EtherTypeNew | src/header/link/ethernet.rs:139-150 | `get(new(v)) == v`, and `Unknown` exactly for a value other than 0x0800, 0x0806 and 0x86DD |
| LinkEthernet.EtherTypeRoundTrip | src/header/link/ethernet.rs:139-150 | `new(get(t)) == t` exactly for the values `new` can produce, where an `Unknown` never carries a known code |
| LinkEthernet.EthernetII.ToBytes | src/header/link/ethernet.rs:20-26 | the header covers 14 bytes |
| LinkEthernet.EthernetII.Ethertype | src/header/link/ethernet.rs:48-52 | the EtherType whose code is the type field read big-endian |
| LinkEthernet.FromBytes | src/header/link/ethernet.rs:29-34 | `HeaderTruncated` exactly below 14 bytes; otherwise the header and payload, which concatenate to the input |
| LinkEthernet.FromBytesOfBytes | src/header/link/ethernet.rs:29-34 | parsing a serialized header and payload gives them back |
| LinkEthernet.FieldOffsets | src/header/link/ethernet.rs:29-52 | `dst` reads the first six bytes, `src` the next six, `ethertype` the big-endian word at byte 12, and the payload starts at byte 14 |
| LinkEthernet.FromBytesExamples | src/header/link/ethernet.rs:178-205 | 13 bytes fail; 14 zero bytes give `Unknown(0)`; the three known codes decode to `Ipv4`, `Arp`, `Ipv6` |
| InternetArp.HardwareNew | src/header/internet/arp.rs:11-15 | `get(new(v)) == v`, and `Unknown` exactly for a value other than 1 |
| InternetArp.HardwareRoundTrip | src/header/internet/arp.rs:11-15 | `new(get(h)) == h` for every hardware type except an `Unknown(1)` |
| InternetArp.OperationNew | src/header/internet/arp.rs:17-22 | `get(new(v)) == v`, and `Unknown` exactly for a value other than 1 and 2 |
| InternetArp.OperationRoundTrip | src/header/internet/arp.rs:17-22 | `new(get(op)) == op` except for an `Unknown` carrying 1 or 2 |
| InternetArp.HardwareReprGet | src/header/internet/arp.rs:128-134 | the hardware type whose code is the field read big-endian |
| InternetArp.HardwareReprFrom | src/header/internet/arp.rs:136-141 | the field stores the code of the hardware type |
| InternetArp.HardwareReprRoundTrip | src/header/internet/arp.rs:128-141 | storing a hardware type and reading it back gives its canonical form, and the type itself unless it is `Unknown(1)` |
| InternetArp.OperationReprGet | src/header/internet/arp.rs:154-160 | the operation whose code is the field read big-endian |
| InternetArp.OperationReprFromHardwareAsWritten | src/header/internet/arp.rs:162-167 | the conversion as written stores the code of a hardware type in an operation field |
| InternetArp.OperationReprFromHardwareMixesCodes | src/header/internet/arp.rs:162-167 | converting `Hardware::Ethernet` yields the field of a `Request` |
| InternetArp.OperationReprFrom | src/header/internet/arp.rs:162-167 | the conversion as intended stores the code of an operation |
| InternetArp.OperationReprRoundTrip | src/header/internet/arp.rs:154-167 | storing an operation and reading it back gives its canonical form, and the operation itself unless it is an `Unknown` carrying 1 or 2 |
| InternetArp.Arp.ToBytes | src/header/internet/arp.rs:24-36 | the header covers 28 bytes |
| InternetArp.Arp.HardwareType | src/header/internet/arp.rs:54-58 | the hardware type whose code is the `htype` field read big-endian |
| InternetArp.Arp.ProtocolType | src/header/internet/arp.rs:60-65 | the EtherType whose code is the `ptype` field read big-endian |
| InternetArp.Arp.OperationType | src/header/internet/arp.rs:79-82 | the operation whose code is the `oper` field read big-endian |
| InternetArp.FromBytes | src/header/internet/arp.rs:47-52 | `HeaderTruncated` exactly below 28 bytes; otherwise the header and payload, which concatenate to the input |
| InternetArp.FieldOffsets | src/header/internet/arp.rs:24-36 | each field sits at its offset of RFC 826 as its getter reads it (`hardware_type`, `protocol_type`, `hw_addr_len`, `proto_addr_len`, `operation`, `src_hw_addr`, `src_proto_addr`, `dest_hw_addr`, `dest_proto_addr`), and the payload starts at byte 28 |
| InternetArp.DecodedCodes | src/header/internet/arp.rs:54-82 | Ethernet, Request, Reply and IPv4 are read exactly when their fields hold 1, 1, 2 and 0x0800 |
| InternetArp.FromBytesOfBytes | src/header/internet/arp.rs:47-52 | parsing a serialized header and payload gives them back |
| InternetArp.FromBytesExamples | src/header/internet/arp.rs:179-183 | 27 bytes fail; 28 zero bytes parse, and the address lengths are not checked |
| InternetIp.IpVersionNew | src/header/internet/ip.rs:8-16 | `get(new(v)) == v`, and `Unknown` exactly for a value other than 4 and 6 |
| InternetIp.IpProtocolNew | src/header/internet/ip.rs:18-37 | `get(new(v)) == v`, and `Unknown` exactly for a value outside the ten named protocol numbers |
| InternetIp.ProtocolReprGet | src/header/internet/ip.rs:44-49 | the protocol read from the one-byte field stores back as that same field |
| InternetIp.ProtocolReprFrom | src/header/internet/ip.rs:51-56 | the field is one byte holding the protocol number |
| InternetIp.ProtocolReprRoundTrip | src/header/internet/ip.rs:44-56 | a protocol survives the trip through its field exactly when it is not an `Unknown` carrying a named number |
| InternetIp.DscpTryFrom | src/header/internet/ip.rs:89-99 | `Ok` exactly for a value of at most 0b111111, carrying that value |
| InternetIp.StdDscpNew | src/header/internet/ip.rs:107-136 | `get(new(v)) == v` for every byte, and the result is `Unknown` exactly when `v` is not one of the 23 named codepoints |
| InternetIp.StdDscpCodepoints | src/header/internet/ip.rs:107-136 | every named codepoint fits in 6 bits, and the named ones that are multiples of 8 are exactly the class selectors CS0 to CS7 |
| InternetIp.DscpFromStdAsWritten | src/header/internet/ip.rs:138-143 | the conversion as written keeps any value, wider than 6 bits included |
| InternetIp.DscpFromStdAsWrittenOverflows | src/header/internet/ip.rs:138-143 | `StdDscp::Unknown(0xFF)` converts to a `Dscp` of 0xFF, a value `try_from` refuses |
| InternetIp.DscpFromStd | src/header/internet/ip.rs:138-143 | the corrected conversion gives `ValueToLarge` exactly above 6 bits and never for a named codepoint |
| InternetIp.StdDscpFromDscp | src/header/internet/ip.rs:145-150 | the standard name whose value is the codepoint, `Unknown` exactly when the codepoint is not one of the 23 named ones |
| InternetIp.DscpStdRoundTrip | src/header/internet/ip.rs:138-150 | a codepoint goes to its standard name and back unchanged |
| InternetIp.EcnNew | src/header/internet/ip.rs:152-175 | `get(new(v)) == v`, and `Unknown` exactly above 3 |
| HeaderIp.VersionTryFrom | src/header/ip.rs:23-34 | `Ok` exactly for 4 and 6, carrying the version of that number; `Unsupported` otherwise |
| HeaderIp.ProtocolTryFrom | src/header/ip.rs:71-90 | `Ok` exactly for the ten protocol numbers, carrying the protocol of that number; `Unsupported` otherwise |
| HeaderIp.ProtocolRoundTrip | src/header/ip.rs:64-90 | every protocol converts to its number and back |
| HeaderIp.ProtocolReprCheck | src/header/ip.rs:118-133 | `Ok` exactly when the field is the stored form of some protocol; `Unsupported` otherwise |
| HeaderIp.ProtocolReprGet | src/header/ip.rs:136-151 | on a checked field, the protocol whose stored form the field is |
| HeaderIp.ProtocolReprFrom | src/header/ip.rs:154-159 | the field is one byte holding the protocol number |
| HeaderIp.ProtocolReprRoundTrip | src/header/ip.rs:118-159 | a protocol written to a field checks and reads back as itself |
| HeaderIp.DscpTryFrom | src/header/ip.rs:192-202 | `Ok` exactly for a value of at most 0b111111, carrying it; `Unsupported` otherwise |
| HeaderIp.StdDscpValue | src/header/ip.rs:216-247 | every standard codepoint fits in 6 bits |
| HeaderIp.StdDscpTryFrom | src/header/ip.rs:249-281 | `Ok` exactly for the 23 standard codepoints, carrying the name of that codepoint; `Unsupported` otherwise |
| HeaderIp.DscpFromStd | src/header/ip.rs:283-288 | the codepoint of a standard name is one `Dscp::try_from` accepts |
| HeaderIp.StdDscpTryFromDscp | src/header/ip.rs:290-297 | `Ok` exactly for the 23 named codepoints, and the name converts back to the codepoint; every other codepoint is `Unsupported` |
| HeaderIp.StdDscpRoundTrip | src/header/ip.rs:249-297 | every standard name goes to its codepoint and back |
| HeaderIp.EcnTryFrom | src/header/ip.rs:338-351 | `Ok` exactly below 4, carrying the name of that value; `Unsupported` otherwise |
| HeaderIp.EcnRoundTrip | src/header/ip.rs:331-351 | every ECN name converts to its value and back |
| HeaderMacros.ValidateHeader | src/header/macros.rs:22-31 | `Truncated` exactly when the slice is shorter than the header |
| HeaderMacros.AsHeader | src/header/macros.rs:36-48 | `Truncated` exactly below the header size; otherwise a header-sized prefix and the payload, which concatenate to the slice |
| HeaderMacros.OddByteIgnored | src/header/macros.rs:59-64 | `chunks_exact(2)` leaves out an odd trailing byte: appending one does not change the sum |
| HeaderMacros.BeWordSumBound | src/header/macros.rs:59-64 | the sum over `n` bytes is at most `n / 2` words of 0xFFFF |
| HeaderMacros.SingleFoldVerdict | src/header/macros.rs:65-71 | panics exactly when the sum overflows `u32` or one fold of it overflows `u16`; otherwise `Ok` exactly for a non-zero multiple of 0xFFFF, and `Malformed` otherwise |
| HeaderMacros.VerifyChecksumAsWritten | src/header/macros.rs:57-72 | as written: panics exactly when the word sum overflows `u32` or one fold of it overflows `u16`; otherwise `Ok` exactly for a word sum that is a non-zero multiple of 0xFFFF, and `Malformed` otherwise |
| HeaderMacros.DoubleFoldVerdict | src/header/macros.rs:65-71 | folding twice: `Ok` exactly for a non-zero multiple of 0xFFFF, `Malformed` otherwise |
| HeaderMacros.VerifyChecksum | src/header/macros.rs:55-72 | corrected: `Ok` exactly when the big-endian word sum is a non-zero multiple of 0xFFFF, `Malformed` otherwise |
| HeaderMacros.SampleOverflowSum | src/header/macros.rs:59-64 | the words of the sample header with checksum 0xb862 add up to 0x2FFFE |
| HeaderMacros.OverflowVerdicts | src/header/macros.rs:65-67 | for the sum 0x2FFFE, `high + low` overflows `u16` as written, and the corrected check reports `Malformed` |
| HeaderMacros.SingleFoldOverflows | src/header/macros.rs:57-72 | that sample header makes the check as written panic, and the corrected check rejects it |
| HeaderMacros.AsWrittenAgrees | src/header/macros.rs:57-72 | wherever the code as written does not panic, it agrees with the corrected check |
| Ipv4Address.IsUnspecified | src/header/internet/ipv4.rs:197-201 | true exactly for 0.0.0.0 |
| Ipv4Address.IsLoopback | src/header/internet/ipv4.rs:203-207 | true exactly inside 127.0.0.0/8 |
| Ipv4Address.IsPrivate | src/header/internet/ipv4.rs:209-222 | true exactly inside 10.0.0.0/8, 172.16.0.0/12 or 192.168.0.0/16 |
| Ipv4Address.IsLinkLocal | src/header/internet/ipv4.rs:224-228 | true exactly inside 169.254.0.0/16 |
| Ipv4Address.IsShared | src/header/internet/ipv4.rs:273-277 | true exactly inside 100.64.0.0/10 |
| Ipv4Address.IsBenchmarkingAsWritten | src/header/internet/ipv4.rs:279-283 | as written: true exactly inside 192.18.0.0/15 |
| Ipv4Address.BenchmarkingAsWrittenMisses | src/header/internet/ipv4.rs:279-283 | 198.18.0.1 is in the documented block but not matched; 192.18.0.1 is matched but outside it |
| Ipv4Address.IsBenchmarking | src/header/internet/ipv4.rs:279-283 | corrected: true exactly inside 198.18.0.0/15, the block the documentation names |
| Ipv4Address.IsBroadcast | src/header/internet/ipv4.rs:298-302 | true exactly for 255.255.255.255 |
| Ipv4Address.IsReserved | src/header/internet/ipv4.rs:285-290 | true exactly inside 240.0.0.0/4, except the broadcast address |
| Ipv4Address.IsMulticast | src/header/internet/ipv4.rs:292-296 | true exactly inside 224.0.0.0/4, that is for a first octet from 224 to 239 |
| Ipv4Address.IsDocumentation | src/header/internet/ipv4.rs:304-314 | true exactly inside 192.0.2.0/24, 198.51.100.0/24 or 203.0.113.0/24 |
| Ipv4Address.IsGlobal | src/header/internet/ipv4.rs:230-271 | 192.0.0.9 and 192.0.0.10 are global; any other address is global exactly when it lies in none of the excluded blocks |
| Ipv4Address.GlobalBlocks | src/header/internet/ipv4.rs:258-270 | the octet tests of `is_global` match exactly the union of the excluded blocks |
| Ipv4Fields.VersionOf | src/header/internet/ipv4.rs:375-379 | the version is a 4-bit value |
| Ipv4Fields.IhlOf | src/header/internet/ipv4.rs:387-391 | the IHL is a 4-bit value |
| Ipv4Fields.WithVersion | src/header/internet/ipv4.rs:381-385 | the byte left by `_set_version` reads back the low four bits of the value and keeps the IHL |
| Ipv4Fields.WithIhl | src/header/internet/ipv4.rs:393-397 | the byte left by `_set_header_len` reads back the low four bits of the value and keeps the version |
| Ipv4Fields.DscpOf | src/header/internet/ipv4.rs:410-414 | the DSCP is a 6-bit value |
| Ipv4Fields.EcnOf | src/header/internet/ipv4.rs:422-426 | the ECN is a 2-bit value |
| Ipv4Fields.WithDscp | src/header/internet/ipv4.rs:416-420 | the byte left by `_set_dscp` reads back the low six bits of the value and keeps the ECN |
| Ipv4Fields.WithEcn | src/header/internet/ipv4.rs:428-432 | the byte left by `_set_ecn` reads back the low two bits of the value and keeps the DSCP |
| Ipv4Fields.FlagsOf | src/header/internet/ipv4.rs:445-449 | the flags are a 3-bit value |
| Ipv4Fields.FragOffsetOf | src/header/internet/ipv4.rs:457-461 | the offset is the low 13 bits of the two bytes read big-endian |
| Ipv4Fields.WithFlags | src/header/internet/ipv4.rs:451-455 | the byte left by `_set_flags` reads back the low three bits of the value and keeps the offset |
| Ipv4Fields.WithFragOffset | src/header/internet/ipv4.rs:463-469 | the bytes left by `_set_frag_offset` read back the low 13 bits of the value and keep the flags |
| Ipv4Fields.FragOffsetBytes | src/header/internet/ipv4.rs:466-468 | the new first byte keeps the flag bits and takes the offset's top five bits, and with the second byte it spells the value modulo 0x2000 |
| Ipv4Fields.VerIhl.constructor | src/header/internet/ipv4.rs:371-372 | a view of the one-byte field |
| Ipv4Fields.VerIhl.SetVersion | src/header/internet/ipv4.rs:381-385 | writes the byte `WithVersion` gives; a 4-bit version reads back and the IHL is unchanged |
| Ipv4Fields.VerIhl.SetHeaderLen | src/header/internet/ipv4.rs:393-397 | writes the byte `WithIhl` gives; a 4-bit IHL reads back and the version is unchanged |
| Ipv4Fields.DiffServ.constructor | src/header/internet/ipv4.rs:406-407 | a view of the one-byte field |
| Ipv4Fields.DiffServ.SetDscp | src/header/internet/ipv4.rs:416-420 | writes the byte `WithDscp` gives; a 6-bit DSCP reads back and the ECN is unchanged |
| Ipv4Fields.DiffServ.SetEcn | src/header/internet/ipv4.rs:428-432 | writes the byte `WithEcn` gives; a 2-bit ECN reads back and the DSCP is unchanged |
| Ipv4Fields.FlagsFragOffset.constructor | src/header/internet/ipv4.rs:441-442 | a view of the two-byte field |
| Ipv4Fields.FlagsFragOffset.SetFlags | src/header/internet/ipv4.rs:451-455 | writes the byte `WithFlags` gives and leaves the second byte; 3-bit flags read back and the offset is unchanged |
| Ipv4Fields.FlagsFragOffset.SetFragOffset | src/header/internet/ipv4.rs:463-469 | writes the bytes `WithFragOffset` gives; a 13-bit offset reads back and the flags are unchanged |
| Ipv4.HeaderLen | src/header/internet/ipv4.rs:73-79 | the header length is four bytes per IHL word: a multiple of 4, at most 60 |
| Ipv4.OptionsLen | src/header/internet/ipv4.rs:81-87 | at most 40; the header length less 20, or 0 when the IHL is below 5 (the saturating subtraction) |
| Ipv4.HeaderVersion | src/header/internet/ipv4.rs:67-71 | always the version numbered 4 |
| Ipv4.HeaderDscp | src/header/internet/ipv4.rs:89-93 | the six DSCP bits of octet 1, a codepoint `Dscp::try_from` accepts |
| Ipv4.HeaderEcn | src/header/internet/ipv4.rs:95-99 | the ECN `try_from` gives for the two ECN bits, so the `unwrap` never panics |
| Ipv4.TotalLen | src/header/internet/ipv4.rs:101-105 | the big-endian word whose encoding is octets 2 and 3 |
| Ipv4.Id | src/header/internet/ipv4.rs:107-111 | the big-endian word whose encoding is octets 4 and 5 |
| Ipv4.FlagsTryFrom | src/header/internet/ipv4.rs:345-357 | `Ok` exactly for 0, 1 and 2, carrying the flags of that value; `Unsupported` otherwise |
| Ipv4.HeaderFlags | src/header/internet/ipv4.rs:113-117 | the flags of the three flag bits, and `None` (the `unwrap` panic) exactly when they read 3 or more |
| Ipv4.FragOffset | src/header/internet/ipv4.rs:119-123 | the big-endian word of octets 6 and 7 without its three flag bits, below 0x2000 |
| Ipv4.Ttl | src/header/internet/ipv4.rs:125-129 | the byte whose encoding is octet 8 |
| Ipv4.HeaderProtocol | src/header/internet/ipv4.rs:131-135 | on a checked protocol byte, the protocol of that number |
| Ipv4.HeaderChecksum | src/header/internet/ipv4.rs:137-141 | the big-endian word whose encoding is octets 10 and 11 |
| Ipv4.Source | src/header/internet/ipv4.rs:143-147 | the four octets 12 to 15, between the first 12 octets and the destination |
| Ipv4.Destination | src/header/internet/ipv4.rs:149-153 | the last four octets of the header |
| Ipv4.Decode | src/header/internet/ipv4.rs:101-153 | every field the getters read is within its width |
| Ipv4.GettersReadFields | src/header/internet/ipv4.rs:101-153 | the getters read back every field written at its offset of RFC 791 |
| Ipv4.EncodeDecode | src/header/internet/ipv4.rs:23-36 | every 20-byte header is the encoding of the fields the getters read |
| Ipv4.SplitHeader | src/header/internet/ipv4.rs:38-65 | `Ok` exactly for a slice with version 4, its options present, flags of at most 3, a known protocol and a verifying checksum over `header_len` bytes; the first failed check, in the source's order, decides the error: `Truncated` for a short slice, `Unsupported` for another version, `Truncated` for missing options, `Malformed` for flags above 3, `Unsupported` for an unknown protocol, `Malformed` for a failed checksum; on success the fixed header, options of `options_len` bytes and the payload, which concatenate to the slice |
| Ipv4.ShortIhlAccepted | src/header/internet/ipv4.rs:51-64 | an IHL of 1 is not rejected: the header length is 4, the checksum covers those 4 bytes only, and the options are empty |
| Ipv4.AcceptedWithFlagsThree | src/header/internet/ipv4.rs:55-57 | `split_header` admits a header whose flags read 3, on which `flags()` then panics |
| Ipv4.SplitHeaderStrict | src/header/internet/ipv4.rs:43-65 | corrected: accepts exactly what `split_header` accepts with an IHL of at least 5 and flags of at most 2, so `header_len` is at least 20 and `flags()` cannot panic; a header refused only for these is `Malformed`, every other outcome is that of `split_header` |
| Ipv4.StrictRejectsShortIhl | src/header/internet/ipv4.rs:43-65 | the IHL-1 header `split_header` accepts is `Malformed` once the IHL is checked |
| Ipv4.FlagsThreeSum | src/header/internet/ipv4.rs:60 | a sample 20-byte header with DF and MF both set has a checksum that verifies, so it meets those conditions |
| Ipv4.ShortHeader | src/header/internet/ipv4.rs:477-481 | 19 zero bytes are `Truncated` |
| HeaderMod.ValidateHeader | src/header/mod.rs:38-47 | `Error::Length` exactly when the slice is shorter than the header |
| HeaderMod.AsHeader | src/header/mod.rs:52-64 | `Length` exactly below the header size; otherwise a header-sized prefix and the payload, which concatenate to the slice |
| HeaderMod.AsHeaderMut | src/header/mod.rs:69-81 | `Length` exactly below the header size; otherwise two disjoint windows, the header first, covering the whole buffer |
| ParseMod.ValidateHeader | src/parse/mod.rs:4-16 | for a header type whose layout passes the compile-time checks, `Length` exactly when the slice is shorter than it |
| ParseMod.AsHeader | src/parse/mod.rs:18-30 | `Length` exactly below the expected size; otherwise a prefix of that size and the payload, which concatenate to the slice |
| ParseMod.AsHeaderMut | src/parse/mod.rs:32-44 | `Length` exactly below the expected size; otherwise two disjoint windows covering the buffer |
| ParseMod.AgreesWithHeaderMod | src/parse/mod.rs:18-44 | the casts of this revision give the same results as those of `src/header/mod.rs` |
| HeaderEthernet.EtherTypeValue | src/header/ethernet.rs:122-135 | the three codes 0x0800, 0x0806 and 0x86DD |
| HeaderEthernet.Parse | src/header/ethernet.rs:149-155 | `Ok`, keeping the field, exactly when the field is the stored form of one of the three EtherTypes; `Unknown` otherwise |
| HeaderEthernet.Get | src/header/ethernet.rs:158-166 | on a parsed field, the EtherType whose stored form the field is |
| HeaderEthernet.GetOfValue | src/header/ethernet.rs:142-166 | the stored form of each EtherType parses and reads back as that EtherType |
| HeaderEthernet.EthernetII.ToBytes | src/header/ethernet.rs:12-18 | the header covers 14 bytes |
| HeaderEthernet.SplitHeader | src/header/ethernet.rs:23-28 | `Length` below 14 bytes, `Unknown` for an unknown EtherType, and otherwise a header with a known EtherType and the payload, which concatenate to the slice |
| HeaderEthernet.SplitHeaderMut | src/header/ethernet.rs:32-37 | fails exactly when `split_header` does, with the same error; otherwise the windows of the header and of the payload |
| HeaderEthernet.SplitHeaderOfBytes | src/header/ethernet.rs:23-28 | a serialized header with a known EtherType splits back into itself and its payload |
| HeaderEthernet.SplitHeaderKnownType | src/header/ethernet.rs:23-28 | a slice whose type field holds a known code splits, and its EtherType reads back as that code |
| HeaderEthernet.SplitHeaderRejects | src/header/ethernet.rs:186-199 | 13 bytes give `Length`; EtherType 0x0D0E gives `Unknown` |
| HeaderEthernet.SplitHeaderKnownTypes | src/header/ethernet.rs:201-215 | the three known codes split and read back as `Ipv4`, `Arp` and `Ipv6` |
| TransportUdp.Udp.ToBytes | src/header/transport/udp.rs:20-27 | the header covers 8 bytes, two per field |
| TransportUdp.Udp.SourcePort | src/header/transport/udp.rs:35-39 | the value whose big-endian encoding is the source port field |
| TransportUdp.Udp.DestinationPort | src/header/transport/udp.rs:41-45 | the value whose big-endian encoding is the destination port field |
| TransportUdp.Udp.Len | src/header/transport/udp.rs:47-53 | the value whose big-endian encoding is the length field, unchecked against 8 |
| TransportUdp.Udp.Checksum | src/header/transport/udp.rs:55-59 | the value whose big-endian encoding is the checksum field |
| TransportUdp.FromBytes | src/header/transport/udp.rs:29-33 | `HeaderTruncated` exactly when fewer than 8 bytes are given; otherwise a header and a payload that concatenate to the input |
| TransportUdp.FieldOffsets | src/header/transport/udp.rs:35-59 | the source port, destination port, length and checksum are the big-endian words at offsets 0, 2, 4 and 6, and the payload starts at byte 8 |
| TransportUdp.FromBytesOfBytes | src/header/transport/udp.rs:29-33 | parsing a serialized header followed by a payload gives back both |
| TransportUdp.FromBytesExamples | src/header/transport/udp.rs:79-83 | 7 bytes give `HeaderTruncated`; 8 zero bytes parse with a length field of 0, below the 8 the documentation promises |
| TransportUdp.FromBytesChecked | src/header/transport/udp.rs:47-53 | corrected: `Truncated` exactly below 8 bytes, `LengthBelowHeader` exactly for a length field below 8; on success `len` is at least 8 and the result is that of `from_bytes` |
| TransportUdp.CheckedRejectsZeroLength | src/header/transport/udp.rs:47-53 | the 8 zero bytes `from_bytes` accepts are refused once the length is checked |
| LinkIeee802154.FrameTypeNew | src/header/link/ieee802154.rs:233-243 | the code reads back unchanged, and it is `Unknown` exactly when it is not one of the seven named frame types |
| LinkIeee802154.AddressingModeNew | src/header/link/ieee802154.rs:245-251 | the code reads back unchanged, and it is `Unknown` exactly when it is not 0, 2 or 3 |
| LinkIeee802154.FrameVersionNew | src/header/link/ieee802154.rs:253-259 | the code reads back unchanged, and it is `Unknown` exactly when it is not 0, 1 or 2 |
| LinkIeee802154.FrameControl.FrameTypeField | src/header/link/ieee802154.rs:183-185 | the frame type is bits 13-15 of the big-endian word |
| LinkIeee802154.FrameControl.SecurityEnabled | src/header/link/ieee802154.rs:187-189 | holds exactly when bit 12 of the word is set |
| LinkIeee802154.FrameControl.FramePending | src/header/link/ieee802154.rs:191-193 | holds exactly when bit 11 of the word is set |
| LinkIeee802154.FrameControl.AckRequired | src/header/link/ieee802154.rs:195-197 | holds exactly when bit 10 of the word is set |
| LinkIeee802154.FrameControl.PanIdCompressed | src/header/link/ieee802154.rs:199-201 | holds exactly when bit 9 of the word is set |
| LinkIeee802154.FrameControl.SeqNumSuppressed | src/header/link/ieee802154.rs:203-205 | holds exactly when bit 7 of the word is set |
| LinkIeee802154.FrameControl.IePresent | src/header/link/ieee802154.rs:207-209 | holds exactly when bit 6 of the word is set |
| LinkIeee802154.FrameControl.DestAddressingMode | src/header/link/ieee802154.rs:211-216 | the destination addressing mode is bits 4-5 of the word |
| LinkIeee802154.FrameControl.FrameVersionField | src/header/link/ieee802154.rs:217-221 | the frame version is bits 2-3 of the word |
| LinkIeee802154.FrameControl.SrcAddressingMode | src/header/link/ieee802154.rs:222-226 | the source addressing mode is bits 0-1 of the word |
| LinkIeee802154.FrameControlLayout | src/header/link/ieee802154.rs:132-181 | the subfields and the reserved bit 8 take disjoint bit ranges that together make up the whole word, as the layout diagram and the masks lay out |
| LinkIeee802154.FieldsOfBytes | src/header/link/ieee802154.rs:152-226 | each getter reads its bits from one of the two bytes of the field |
| LinkIeee802154.LowByteFieldAt2 | src/header/link/ieee802154.rs:177-178 | bits 2-3 of the word are bits 2-3 of its second byte |
| LinkIeee802154.LowByteFieldAt4 | src/header/link/ieee802154.rs:174-175 | bits 4-5 of the word are bits 4-5 of its second byte |
| LinkIeee802154.HeaderLen | src/header/link/ieee802154.rs:111-123 | the header is at least `ACK_LENGTH` long; an acknowledgement's header is exactly 3 bytes; an unsecured frame's header is 3 bytes plus the addressing fields; a secured frame's adds the security length read from the byte at `3 + addressing_len + 1` |
| LinkIeee802154.SplitHeader | src/header/link/ieee802154.rs:125-128 | `Truncated` exactly when the slice is shorter than the header; otherwise a header of that length and a payload that concatenate to the slice |
| LinkIeee802154.FromBytesAsWritten | src/header/link/ieee802154.rs:92-129 | the code as written indexes past the slice exactly when a secured, supported non-acknowledgement frame is exactly `sc_index` bytes long |
| LinkIeee802154.FromBytes | src/header/link/ieee802154.rs:92-129 | checks in order: `Truncated` below 2 bytes; `Unsupported(Version)` for versions other than 2003 and 2006; `Unsupported(Type)` for types other than beacon, data, ack and MAC command; `Truncated` when the security control byte or the header is missing; otherwise a header of `HeaderLen` bytes and a payload that concatenate to the slice |
| LinkIeee802154.AsWrittenAgrees | src/header/link/ieee802154.rs:113-120 | wherever the code as written does not panic, it gives the corrected result |
| LinkIeee802154.SecurityIndexOutOfBounds | src/header/link/ieee802154.rs:114-116 | a 4-byte secured data frame with empty addressing fields makes the code as written read past the slice, where the corrected parse reports `Truncated` |
| LinkIeee802154.AckHeader | src/header/link/ieee802154.rs:111-112 | a supported acknowledgement frame of at least 3 bytes parses with its first 3 bytes as its header |
| NetDevice.Union | src/netdev/sys.rs:138-144 | an event is readable (writable) exactly when either operand is |
| Driver.ProcessEthernet | src/driver/mod.rs:102-112 | accepts exactly the frames whose EtherType is unknown; fails exactly when an IPv4 payload does not decode; reaches `process_ipv4` exactly when one does; ARP and IPv6 reach their `todo!()`; never panics |
| Driver.ChecksumPasses | src/driver/mod.rs:91 | panics exactly when the word sum overflows the `u32` accumulator; otherwise passes exactly when the word sum is a non-zero multiple of 0xFFFF |
| Driver.ProcessAsWritten | src/driver/mod.rs:78-100 | as written: an opaque packet whose whole first byte is not 4 or 6 is dropped; one whose first byte is 4 and that decodes reaches `process_ipv4` exactly when `header_len` fits the payload after the header and the checksum over that much of the payload passes |
| Driver.Process | src/driver/mod.rs:78-100 | corrected: an IEEE 802.15.4 frame reaches its handler exactly when it parses and panics in `unwrap` exactly when it does not; an opaque packet that is empty or whose version nibble is not 4 or 6 is dropped; version 6 reaches its `todo!()`; on an opaque device `process` fails exactly when the nibble is 4 and the IPv4 decoder fails |
| Driver.ProcessDecisions | src/driver/mod.rs:78-100 | a short Ethernet frame fails and a whole one goes to `process_ethernet` with the bytes after its header; an opaque IPv4 packet reaches `process_ipv4` exactly when it decodes and its checksum over the first `header_len` bytes holds, and panics exactly when `header_len` overruns the packet or the accumulator overflows |
| Driver.AsWrittenAgreesOffOpaque | src/driver/mod.rs:78-87 | on Ethernet and IEEE 802.15.4 devices the code as written and the corrected `process` agree |
| Driver.AsWrittenAgreesOnOtherVersions | src/driver/mod.rs:88-97 | an empty packet, or one whose first byte and version nibble are both other than 4 and 6, is dropped by both versions |
| Driver.WholeByteVersionDropsIpv4 | src/driver/mod.rs:88-89 | the code as written drops every packet whose first byte is 0x45 to 0x4F, although its version nibble is 4 |
| Driver.OpaqueIpv4Delivered | src/driver/mod.rs:89-94 | an opaque IPv4 packet that decodes and whose checksum over its first `header_len` bytes holds reaches `process_ipv4`, whatever payload follows the header |
| Driver.OpaqueIpv4Dropped | src/driver/mod.rs:91-93 | an opaque IPv4 packet that decodes and whose checksum over its first `header_len` bytes fails is dropped without error, whatever payload follows the header |
| Driver.SampleIpv4Packet | src/driver/mod.rs:88-94 | a valid 20-byte IPv4 header is dropped by the code as written and reaches `process_ipv4` in the corrected code |
| Driver.OpaqueIpv4Outcomes | src/driver/mod.rs:89-93 | a corrupted IPv4 header is dropped; a one-byte packet the decoder rejects makes `process` fail |
| Driver.ChecksumOverPayloadPanics | src/driver/mod.rs:90-91 | when the first byte is 4, the code as written slices `header_len` bytes out of the payload that follows the header, and a 20-byte packet panics |
| Driver.ProcessOn | src/driver/mod.rs:71 | the processing function of a device is `process` on its hardware type |
| Driver.Frame | src/driver/mod.rs:70-71 | the bytes processed fit the buffer, are a prefix of the frame, and are the whole frame when it fits |
| Driver.ReceiveStep | src/driver/mod.rs:69-72 | no frame exactly when the frame script is exhausted; a receive error exactly when the next frame is an error |
| Driver.Stop | src/driver/mod.rs:64-71 | the loop goes on after a receive exactly when `process` returns `Ok` |
| Driver.TurnSpec | src/driver/mod.rs:52-74 | a turn consumes no more polls and receives than the device has |
| Driver.RecvOnlyWhenReadable | src/driver/mod.rs:61-72 | receives happen only after readable events and at most one per iteration: the receives are the readable polls, or one fewer when the last receive would block |
| Driver.ClearWritable | src/driver/mod.rs:65-67 | clearing the writable flag keeps the number of events |
| Driver.WritableIgnored | src/driver/mod.rs:65-76 | `dispatch` does nothing, so whether events are writable does not change the turn |
| Driver.TurnAdvance | src/driver/mod.rs:56-73 | one iteration keeps the loop's account: what has been consumed plus what the rest of the turn consumes is what the whole turn consumes |
| Driver.NetDev.constructor | src/driver/mod.rs:21 | a device with the given hardware type and scripts, and no polls yet |
| Driver.NetDev.Poll | src/driver/mod.rs:61-64 | returns the next scripted event and consumes it, or reports that the device would block; records the interest and timeout; leaves the frames alone |
| Driver.NetDev.Recv | src/driver/mod.rs:70 | copies the next scripted frame, cut to the buffer, into the front of the buffer and returns its length; a receive error is returned as such; the events and the polls made are left alone |
| Driver.Driver.constructor | src/driver/mod.rs:37-42 | the driver holds the device and a fresh zeroed buffer of `MTU` bytes |
| Driver.Driver.ReceiveAndProcess | src/driver/mod.rs:69-72 | the result is `ReceiveStep` on the device's frames, consuming one frame unless none was left; the events and polls are unchanged |
| Driver.Driver.Step | src/driver/mod.rs:56-72 | one iteration is one unfolding of `TurnSpec`; it polls the device at most once, asking for readability without a timeout, and every iteration that does not end the loop polls exactly once |
| Driver.Driver.Turn | src/driver/mod.rs:52-74 | the outcome is `TurnSpec`'s, and the device has consumed exactly the polls and receives `TurnSpec` counts |
| Driver.ReadyFirst | src/driver/mod.rs:57-59 | a future that is ready at once completes without polling the device |
| Driver.ShortEthernetFrameFails | src/driver/mod.rs:69-83 | a readable event followed by a frame shorter than an Ethernet header ends the turn with `process` failing |
| NetdevSys.AsCChar | src/netdev/sys.rs:38 | the signed `c_char` has the byte's bit pattern, and is non-negative exactly when the byte is below 0x80 |
| NetdevSys.IfreqNameOf | src/netdev/sys.rs:29-41 | 16 entries; the first 15 bytes of the name at most, cast to `c_char`, in order; zeros after the name; the last entry is always NUL |
| NetdevSys.IfreqName | src/netdev/sys.rs:29-41 | the loop fills a fresh array with exactly `IfreqNameOf(name)` |
| NetdevSys.CString | src/netdev/sys/mod.rs:23-35 | the C string read back is the prefix before the first NUL, which holds no NUL and ends at a NUL or at the end |
| NetdevSys.IfreqNameRoundTrip | src/netdev/sys/mod.rs:23-35 | for a name without NUL bytes, `ifr_name` read back as a C string is the name cut to 15 bytes |
| NetdevSys.CStringOfPrefix | src/netdev/sys/mod.rs:28-29 | entries before the first NUL are the C string |
| NetdevSys.TunSetIffRequest | src/netdev/sys.rs:43-64 | IEEE 802.15.4 is refused before any `ioctl`; otherwise the request carries the name, always `IFF_NO_PI`, `IFF_TUN` exactly for an opaque device and `IFF_TAP` exactly for an Ethernet device |
| NetdevSys.TunSetIffFlags | src/netdev/sys.rs:48-54 | the flags are 0x1001 for TUN and 0x1002 for TAP, so the two requests differ |
| NetdevSys.InterestFlags | src/netdev/sys.rs:121-127 | `POLLIN` exactly when the interest is readable, `POLLOUT` exactly when it is writable, and no other flag |
| NetdevSys.EventOf | src/netdev/sys.rs:138-144 | readable exactly when `POLLIN` is reported, writable exactly when `POLLOUT` is, whatever else is reported |
| NetdevSys.EventOfInterest | src/netdev/sys.rs:121-144 | an interest translated to flags and back is unchanged |
| NetdevSys.WrapI32 | src/netdev/sys.rs:133 | `as i32` keeps the value modulo 2^32 and leaves values below 2^31 alone |
| NetdevSys.TimeoutAsWritten | src/netdev/sys.rs:131-135 | no timeout is -1, an unlimited wait |
| NetdevSys.LongTimeoutWraps | src/netdev/sys.rs:133 | a timeout of 2^31 ms becomes negative (no limit) and one of 2^32 ms becomes 0 (no wait) |
| NetdevSys.Timeout | src/netdev/sys.rs:131-135 | -1 exactly when there is no timeout; otherwise the milliseconds capped at the largest `i32` |
| NetdevSys.TimeoutMonotone | src/netdev/sys.rs:131-135 | a finite timeout never becomes unlimited, a longer timeout never waits less, and below 2^31 ms both versions agree |
| NetdevSys.Poll | src/netdev/sys.rs:120-147 | the call gets the interest's flags and the corrected timeout; its error is returned; otherwise the event is the one its reported flags give |


## Left out

- The unsafe casts of slice memory to header structs and the compile-time alignment and size assertions are not modelled. Headers are decoded from bytes, and the assertions are facts about the types (preconditions in `ParseMod`).
- The mutable views of `as_header_mut!` and `split_header_mut` are modelled as index windows into one buffer. Nothing is ever written through them.
- `addressing_len` and `security_len` of the IEEE 802.15.4 parser are `todo!()` in the source, so they are function parameters of `LinkIeee802154.FromBytes`.
- `process_ipv4`, `process_ieee802154`, and the ARP and IPv6 branches are `todo!()`, so they are terminal `Unimplemented` outcomes.
- The driver calls an `Ipv4::from_bytes` with a `usize` `header_len` that none of the IPv4 revisions here has, so it is a parameter (`Driver.Decoders`).
- The future is a finite script of poll results that stays pending after its end.
- The device is a class with scripted poll and receive results. When a script runs out, a real device would block for ever, because `poll` has no timeout; the loop reports `Blocked` instead of diverging.
- The waker, `Context` and `Pin` plumbing of `turn` (src/driver/waker.rs, src/driver/pin.rs) is not part of this model.
- `Event` and `HardwareType` are reconstructed from their uses, since their declarations are not part of this model. The `NetDev` trait of src/netdev/mod.rs does not match the driver's calls and is replaced by the scripted device.
- The system calls (`ioctl`, `poll`, `pselect`, `bind`, `read`, `write`, `close`) are not modelled. The `poll` call is a function parameter of `NetdevSys.Poll`.
- src/netdev/packet_socket.rs, src/netdev/tuntap_interface.rs, src/netdev/sys/owned.rs and src/netdev/sys/ifreq_ioctl.rs are not modelled: they only make system calls and own descriptors.
- `ioctl_siocgifmtu`, `ioctl_siocgifindex` and `bind_interface` of src/netdev/sys.rs are not modelled for the same reason, and neither is the `pselect`-based `poll` of src/netdev/sys/mod.rs.
- `c_char` is taken to be signed, as on x86-64 Linux.
- All `fmt::Display` implementations are not modelled: they only format strings.
- Bit operations are division and remainder on integers. Their equality with the `&`, `>>` and `|` of the source is not proved, except for the `poll` flags and the `TUNSETIFF` flags, which are `bv16`.
- HeaderUtils.SplitWord: reads the word for a little-endian host (x86-64, AArch64). `from_ne_bytes` on a big-endian host is not modelled.
- Checksum.ComputeChecksum: requires the word sum to fit the `u32` accumulator, where a debug build panics; a release build's wrap-around is not modelled.
- Checksum.VerifyChecksum: carries the same accumulator requirement as `Checksum.ComputeChecksum`, for the same reason.
- Driver.ChecksumPasses: reports the accumulator overflow as a panic in the same way.
- Ipv4.SplitHeader: checks the checksum with the corrected double-fold `HeaderMacros.VerifyChecksum`, not the single fold as written (see Findings).
- Ipv4Address.IsGlobal: uses the corrected `IsBenchmarking`, not the test as written (see Findings).
- Driver.Driver.Turn: uses the corrected `Process`.
- Driver.Driver.Turn: its ensures does not restate the turn-wide log of poll requests. `Driver.Driver.Step` states each iteration's request: readability, no timeout, at most one per iteration, and exactly one per iteration that goes on.
- NetdevSys.Poll: passes the corrected, capped timeout, not the wrapping `as i32` cast (see Findings).
- The `EtherAddr` predicates of src/header/ethernet.rs are the same as those of src/header/link/ethernet.rs. They are defined once, in `LinkEthernet`.

## Findings

| source | as written | input that shows it | evidently intended | confidence | as-written member | corrected member |
|---|---|---|---|---|---|---|
| src/header/macros.rs:65-67 | one carry fold, then `high + low` as `u16`, which overflows (a panic in a debug build) | the second sample IPv4 header with checksum 0xb862: word sum 0x2FFFE, `high + low` = 0x10000 | fold twice, so a sum like this is reported `Malformed` | not executed | HeaderMacros.SingleFoldOverflows | HeaderMacros.VerifyChecksum |
| src/header/internet/ipv4.rs:279-283 | `is_benchmarking` tests a first octet of 192 | 198.18.0.1 is not matched; 192.18.0.1 is matched | 198.18.0.0/15, as the documentation says | not executed | Ipv4Address.BenchmarkingAsWrittenMisses | Ipv4Address.IsBenchmarking |
| src/header/internet/ip.rs:138-143 | `From<StdDscp> for Dscp` copies any value into a `Dscp` | `StdDscp::Unknown(0xFF)` gives a `Dscp` of 0xFF, which `Dscp::try_from` refuses | check the 6-bit bound, as `Dscp::try_from` does | not executed | InternetIp.DscpFromStdAsWrittenOverflows | InternetIp.DscpFromStd |
| src/header/internet/arp.rs:162-167 | `From<Hardware> for OperationRepr` stores a hardware-type code in the operation field | `Hardware::Ethernet` becomes an operation field that reads back as `Request` | `From<Operation> for OperationRepr` | not executed | InternetArp.OperationReprFromHardwareMixesCodes | InternetArp.OperationReprRoundTrip |
| src/header/link/ieee802154.rs:113-120 | `bytes.len() >= sc_index` guards `bytes[sc_index]` | a 4-byte secured data frame `30 00 00 00` with empty addressing fields reads index 4 | `>` and `Truncated` otherwise | not executed | LinkIeee802154.SecurityIndexOutOfBounds | LinkIeee802154.FromBytes |
| src/driver/mod.rs:88 | `IpVersion::from` on the whole first byte | every real IPv4 packet (first byte 0x45 to 0x4F) is dropped | the high nibble of the first byte | not executed | Driver.WholeByteVersionDropsIpv4 | Driver.Process |
| src/driver/mod.rs:90-91 | the checksum is verified over the first `header_len` bytes of the shadowed payload | a 20-byte packet with first byte 4 slices 20 bytes out of an empty payload and panics | verify over the first `header_len` bytes of the packet | not executed | Driver.ChecksumOverPayloadPanics | Driver.OpaqueIpv4Delivered |
| src/header/internet/ipv4.rs:55-57 | `split_header` rejects flags above 3 only, while `Flags::try_from` in `flags()` accepts at most 2 | a valid-checksum header whose flag bits read 3 (`45 00 00 73 00 00 60 00 40 11 98 61 c0 a8 00 01 c0 a8 00 c7`) is accepted and `flags()` then panics | reject what `flags()` cannot name, so `flags()` never panics | not executed | Ipv4.AcceptedWithFlagsThree | Ipv4.SplitHeaderStrict |
| src/header/internet/ipv4.rs:43-65 | no check that the IHL is at least 5 (section 3.1 of RFC 791) | `41 00 BE FF` followed by 16 bytes with protocol 0x11 is accepted with a 4-byte `header_len` and the checksum over 4 bytes only | `Malformed` for an IHL below 5 | not executed | Ipv4.ShortIhlAccepted | Ipv4.SplitHeaderStrict |
| src/header/transport/udp.rs:47-53 | `len` is documented to return at least 8, but `from_bytes` never checks the field | 8 zero bytes parse, and `len` returns 0 | refuse a length field below 8 | not executed | TransportUdp.FromBytesExamples | TransportUdp.FromBytesChecked |
| src/netdev/sys.rs:133 | `timeout.as_millis() as i32` wraps | 2^31 ms becomes a negative (unlimited) timeout and 2^32 ms becomes 0 | saturate at the largest `i32` | not executed | NetdevSys.LongTimeoutWraps | NetdevSys.TimeoutMonotone |
