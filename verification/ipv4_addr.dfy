/**
 * IPv4 addresses and their special-purpose blocks
 * (src/header/internet/ipv4.rs, `Ipv4Addr`).
 *
 * Each classifier tests octets the way the source does; its contract
 * states the same set as the range of addresses its documentation names,
 * first to last, compared as 32-bit values (`InBlock`), the way section 3
 * of RFC 1918 writes its blocks.
 */
module Ipv4Address {
  import opened Primitive

  /** Four octets in network order. */
  type Ipv4Addr = b: Bytes | |b| == 4 witness [0, 0, 0, 0]

  const LOCALHOST: Ipv4Addr := [127, 0, 0, 1]
  const UNSPECIFIED: Ipv4Addr := [0, 0, 0, 0]
  const BROADCAST: Ipv4Addr := [255, 255, 255, 255]

  /** A block of addresses, from its first to its last. */
  datatype Block = Block(first: Ipv4Addr, last: Ipv4Addr)

  /** The address lies in the block, comparing 32-bit values. */
  predicate InBlock(a: Ipv4Addr, b: Block)
  {
    U32Get(b.first) <= U32Get(a) <= U32Get(b.last)
  }

  /** The blocks the classifiers name, after the IANA IPv4
      special-purpose address registry. */
  const THIS_NETWORK := Block([0, 0, 0, 0], [0, 255, 255, 255])                // 0.0.0.0/8
  const PRIVATE_10 := Block([10, 0, 0, 0], [10, 255, 255, 255])                // 10.0.0.0/8
  const SHARED := Block([100, 64, 0, 0], [100, 127, 255, 255])                 // 100.64.0.0/10
  const LOOPBACK := Block([127, 0, 0, 0], [127, 255, 255, 255])                // 127.0.0.0/8
  const LINK_LOCAL := Block([169, 254, 0, 0], [169, 254, 255, 255])            // 169.254.0.0/16
  const PRIVATE_172 := Block([172, 16, 0, 0], [172, 31, 255, 255])             // 172.16.0.0/12
  const PROTOCOL_ASSIGNMENTS := Block([192, 0, 0, 0], [192, 0, 0, 255])        // 192.0.0.0/24
  const TEST_NET_1 := Block([192, 0, 2, 0], [192, 0, 2, 255])                  // 192.0.2.0/24
  const PRIVATE_192 := Block([192, 168, 0, 0], [192, 168, 255, 255])           // 192.168.0.0/16
  const BENCHMARKING := Block([198, 18, 0, 0], [198, 19, 255, 255])            // 198.18.0.0/15
  const TEST_NET_2 := Block([198, 51, 100, 0], [198, 51, 100, 255])            // 198.51.100.0/24
  const TEST_NET_3 := Block([203, 0, 113, 0], [203, 0, 113, 255])              // 203.0.113.0/24
  const MULTICAST := Block([224, 0, 0, 0], [239, 255, 255, 255])               // 224.0.0.0/4
  const RESERVED := Block([240, 0, 0, 0], [255, 255, 255, 255])                // 240.0.0.0/4

  /** `is_unspecified`: 0.0.0.0/32. */
  predicate IsUnspecified(a: Ipv4Addr)
    ensures IsUnspecified(a) <==> a == UNSPECIFIED
  {
    a[0] == 0 && a[1] == 0 && a[2] == 0 && a[3] == 0
  }

  /** `is_loopback`: 127.0.0.0/8. */
  predicate IsLoopback(a: Ipv4Addr)
    ensures IsLoopback(a) <==> InBlock(a, LOOPBACK)
  {
    a[0] == 127
  }

  /** `is_private`: 10.0.0.0/8, 172.16.0.0/12 and 192.168.0.0/16
      (section 3 of RFC 1918). */
  predicate IsPrivate(a: Ipv4Addr)
    ensures IsPrivate(a) <==>
      InBlock(a, PRIVATE_10) || InBlock(a, PRIVATE_172) || InBlock(a, PRIVATE_192)
  {
    a[0] == 10 || (a[0] == 172 && a[1] / 16 * 16 == 16) || (a[0] == 192 && a[1] == 168)
  }

  /** `is_link_local`: 169.254.0.0/16. */
  predicate IsLinkLocal(a: Ipv4Addr)
    ensures IsLinkLocal(a) <==> InBlock(a, LINK_LOCAL)
  {
    a[0] == 169 && a[1] == 254
  }

  /** `is_shared`: 100.64.0.0/10. */
  predicate IsShared(a: Ipv4Addr)
    ensures IsShared(a) <==> InBlock(a, SHARED)
  {
    a[0] == 100 && a[1] / 64 * 64 == 64
  }

  /** `is_benchmarking` as written: the first octet is compared with 192,
      so the block matched is 192.18.0.0/15. */
  predicate IsBenchmarkingAsWritten(a: Ipv4Addr)
    ensures IsBenchmarkingAsWritten(a) <==> InBlock(a, Block([192, 18, 0, 0], [192, 19, 255, 255]))
  {
    a[0] == 192 && a[1] / 2 * 2 == 18
  }

  /** The test as written misses the benchmarking block its documentation
      names and matches addresses outside it. */
  lemma BenchmarkingAsWrittenMisses()
    ensures !IsBenchmarkingAsWritten([198, 18, 0, 1]) && InBlock([198, 18, 0, 1], BENCHMARKING)
    ensures IsBenchmarkingAsWritten([192, 18, 0, 1]) && !InBlock([192, 18, 0, 1], BENCHMARKING)
  {
  }

  /** `is_benchmarking` as documented: 198.18.0.0/15. */
  predicate IsBenchmarking(a: Ipv4Addr)
    ensures IsBenchmarking(a) <==> InBlock(a, BENCHMARKING)
  {
    a[0] == 198 && a[1] / 2 * 2 == 18
  }

  /** `is_broadcast`: 255.255.255.255/32. */
  predicate IsBroadcast(a: Ipv4Addr)
    ensures IsBroadcast(a) <==> a == BROADCAST
  {
    a[0] == 255 && a[1] == 255 && a[2] == 255 && a[3] == 255
  }

  /** `is_reserved`: 240.0.0.0/4 without the broadcast address. */
  predicate IsReserved(a: Ipv4Addr)
    ensures IsReserved(a) <==> InBlock(a, RESERVED) && a != BROADCAST
  {
    a[0] / 16 * 16 == 240 && !IsBroadcast(a)
  }

  /** `is_multicast`: 224.0.0.0/4. */
  predicate IsMulticast(a: Ipv4Addr)
    ensures IsMulticast(a) <==> InBlock(a, MULTICAST)
    ensures IsMulticast(a) <==> 224 <= a[0] <= 239
  {
    a[0] / 16 * 16 == 224
  }

  /** `is_documentation`: 192.0.2.0/24, 198.51.100.0/24 and 203.0.113.0/24. */
  predicate IsDocumentation(a: Ipv4Addr)
    ensures IsDocumentation(a) <==>
      InBlock(a, TEST_NET_1) || InBlock(a, TEST_NET_2) || InBlock(a, TEST_NET_3)
  {
    (a[0] == 192 && a[1] == 0 && a[2] == 2)
    || (a[0] == 198 && a[1] == 51 && a[2] == 100)
    || (a[0] == 203 && a[1] == 0 && a[2] == 113)
  }

  /** The blocks `is_global` excludes: "this network", the private,
      shared, loopback and link-local blocks, the protocol-assignment,
      documentation and benchmarking blocks, and 240.0.0.0/4 (which holds
      the broadcast address). */
  predicate InNonGlobalBlock(a: Ipv4Addr)
  {
    InBlock(a, THIS_NETWORK)
    || InBlock(a, PRIVATE_10)
    || InBlock(a, SHARED)
    || InBlock(a, LOOPBACK)
    || InBlock(a, LINK_LOCAL)
    || InBlock(a, PRIVATE_172)
    || InBlock(a, PROTOCOL_ASSIGNMENTS)
    || InBlock(a, TEST_NET_1)
    || InBlock(a, PRIVATE_192)
    || InBlock(a, BENCHMARKING)
    || InBlock(a, TEST_NET_2)
    || InBlock(a, TEST_NET_3)
    || InBlock(a, RESERVED)
  }

  /** `is_global`, with the benchmarking block as documented:
      192.0.0.9 and 192.0.0.10 are global, and otherwise an address is
      global exactly when it lies in none of the excluded blocks. */
  predicate IsGlobal(a: Ipv4Addr)
    ensures (a == [192, 0, 0, 9] || a == [192, 0, 0, 10]) ==> IsGlobal(a)
    ensures !(a == [192, 0, 0, 9] || a == [192, 0, 0, 10]) ==> (IsGlobal(a) <==> !InNonGlobalBlock(a))
  {
    if a[0] == 192 && a[1] == 0 && a[2] == 0 && (a[3] == 9 || a[3] == 10) then
      true
    else
      GlobalBlocks(a);
      !IsPrivate(a)
      && !IsLoopback(a)
      && !IsLinkLocal(a)
      && !IsBroadcast(a)
      && !IsDocumentation(a)
      && !IsShared(a)
      && !(a[0] == 192 && a[1] == 0 && a[2] == 0)
      && !IsReserved(a)
      && !IsBenchmarking(a)
      && a[0] != 0
  }

  /** The octet tests of `is_global` cover exactly the excluded blocks. */
  lemma GlobalBlocks(a: Ipv4Addr)
    ensures InNonGlobalBlock(a) <==>
      IsPrivate(a) || IsLoopback(a) || IsLinkLocal(a) || IsBroadcast(a) || IsDocumentation(a)
      || IsShared(a) || (a[0] == 192 && a[1] == 0 && a[2] == 0) || IsReserved(a) || IsBenchmarking(a)
      || a[0] == 0
  {
    assert InBlock(a, THIS_NETWORK) <==> a[0] == 0;
    assert InBlock(a, PROTOCOL_ASSIGNMENTS) <==> a[0] == 192 && a[1] == 0 && a[2] == 0;
    assert InBlock(a, RESERVED) <==> IsReserved(a) || IsBroadcast(a);
  }
}
