/**
 * The pure parts of the Linux glue under the TUN/TAP and packet-socket
 * devices (src/netdev/sys.rs, and the older src/netdev/sys/mod.rs, whose
 * `ifreq_name` is the same loop): packing an interface name into the
 * `ifr_name` field of an `ifreq`, choosing the `TUNSETIFF` flags for a
 * hardware type, and translating between readiness events and `poll(2)`
 * flags and timeouts.
 *
 * The system calls themselves (`ioctl`, `poll`, `pselect`, `bind`) are
 * not modelled: the `poll` call is a function parameter from the
 * requested flags and timeout to the returned flags or an error.
 *
 * A `c_char` is a signed byte, as on x86-64 Linux, and the cast of a name
 * byte to it wraps values from 0x80 up to negative numbers.
 */
module NetdevSys {
  import opened Wrappers
  import opened Primitive
  import opened NetDevice

  /** `libc::IF_NAMESIZE`: the width of `ifr_name`, its NUL included. */
  const IF_NAMESIZE: nat := 16

  /** `c_char`, a signed byte. */
  type CChar = x: int | -0x80 <= x < 0x80

  /** `byte as c_char`: the byte's bit pattern read as two's complement. */
  function AsCChar(b: Byte): (c: CChar)
    ensures c % 0x100 == b
    ensures 0 <= c <==> b < 0x80
  {
    if b < 0x80 then b else b - 0x100
  }

  /** The `ifreq_name` array of `name`: the first `IF_NAMESIZE - 1` bytes
      of the name at most, cast to `c_char`, then zeros to the end. */
  function IfreqNameOf(name: Bytes): (a: seq<CChar>)
    ensures |a| == IF_NAMESIZE
    ensures a[IF_NAMESIZE - 1] == 0
    ensures forall i :: 0 <= i < |name| && i < IF_NAMESIZE - 1 ==> a[i] == AsCChar(name[i])
    ensures forall i :: |name| <= i < IF_NAMESIZE ==> a[i] == 0
  {
    seq(IF_NAMESIZE, i requires 0 <= i < IF_NAMESIZE =>
      if i < |name| && i < IF_NAMESIZE - 1 then AsCChar(name[i]) else 0)
  }

  /** `ifreq_name`: a zeroed array of `IF_NAMESIZE` entries, into which the
      first `IF_NAMESIZE - 1` bytes of the name at most are copied in
      order. The last entry always stays the terminating NUL. */
  method IfreqName(name: Bytes) returns (a: array<CChar>)
    ensures fresh(a) && a[..] == IfreqNameOf(name)
  {
    a := new CChar[IF_NAMESIZE](_ => 0);
    var n := if |name| < IF_NAMESIZE - 1 then |name| else IF_NAMESIZE - 1;
    for index := 0 to n
      invariant forall i :: 0 <= i < index ==> a[i] == AsCChar(name[i])
      invariant forall i :: index <= i < IF_NAMESIZE ==> a[i] == 0
    {
      a[index] := AsCChar(name[index]);
    }
  }

  /** The bytes of a C string: everything before the first NUL. */
  function CString(s: seq<CChar>): (r: seq<CChar>)
    ensures |r| <= |s| && r == s[..|r|]
    ensures 0 !in r
    ensures |r| < |s| ==> s[|r|] == 0
  {
    if |s| == 0 || s[0] == 0 then [] else [s[0]] + CString(s[1..])
  }

  /** Reading `ifr_name` back as a C string gives the name's first
      `IF_NAMESIZE - 1` bytes when the name holds no NUL byte: longer names
      are cut, never overflowing the array. */
  lemma {:induction false} IfreqNameRoundTrip(name: Bytes)
    requires 0 !in name
    ensures var k := if |name| < IF_NAMESIZE then |name| else IF_NAMESIZE - 1;
      CString(IfreqNameOf(name)) == seq(k, i requires 0 <= i < k => AsCChar(name[i]))
  {
    var k := if |name| < IF_NAMESIZE then |name| else IF_NAMESIZE - 1;
    var a := IfreqNameOf(name);
    CStringOfPrefix(a, k);
  }

  /** A sequence whose first `k` entries are not NUL and whose entry `k` is
      NUL reads as a C string of those `k` entries. */
  lemma {:induction false} CStringOfPrefix(s: seq<CChar>, k: nat)
    requires k < |s| && s[k] == 0
    requires forall i :: 0 <= i < k ==> s[i] != 0
    ensures CString(s) == s[..k]
  {
    if k > 0 {
      CStringOfPrefix(s[1..], k - 1);
      assert s[..k] == [s[0]] + s[1..][..k - 1];
    }
  }

  /** `IFF_TUN`, `IFF_TAP` and `IFF_NO_PI` of linux/if_tun.h, as `c_short`
      bit patterns. */
  const IFF_TUN: bv16 := 0x0001
  const IFF_TAP: bv16 := 0x0002
  const IFF_NO_PI: bv16 := 0x1000

  /** The `ifreq` a `TUNSETIFF` request sends. */
  datatype Ifreq = Ifreq(name: seq<CChar>, flags: bv16)

  /** The error for a hardware type TUN/TAP cannot provide. */
  datatype TunError = Ieee802154Unsupported

  /** `ioctl_tunsetiff` up to the `ioctl` call: the request it sends, or
      the error it returns before any `ioctl`. An opaque device is a TUN
      device, an Ethernet device a TAP device, both without the packet
      information prefix; IEEE 802.15.4 is refused. */
  function TunSetIffRequest(hw: HardwareType, name: seq<CChar>): (r: Result<Ifreq, TunError>)
    ensures r.Err? <==> hw == Ieee802154
    ensures r.Ok? ==> r.value.name == name && r.value.flags & IFF_NO_PI == IFF_NO_PI
    ensures r.Ok? ==> (r.value.flags & IFF_TUN == IFF_TUN <==> hw == Opaque)
    ensures r.Ok? ==> (r.value.flags & IFF_TAP == IFF_TAP <==> hw == EthernetII)
  {
    match hw
    case Opaque => Ok(Ifreq(name, IFF_TUN | IFF_NO_PI))
    case EthernetII => Ok(Ifreq(name, IFF_TAP | IFF_NO_PI))
    case Ieee802154 => Err(Ieee802154Unsupported)
  }

  /** The flags sent for each hardware type, and that they tell the two
      devices apart. */
  lemma TunSetIffFlags(name: seq<CChar>)
    ensures TunSetIffRequest(Opaque, name) == Ok(Ifreq(name, 0x1001))
    ensures TunSetIffRequest(EthernetII, name) == Ok(Ifreq(name, 0x1002))
    ensures TunSetIffRequest(Opaque, name) != TunSetIffRequest(EthernetII, name)
  {
    assert IFF_TUN | IFF_NO_PI == 0x1001;
    assert IFF_TAP | IFF_NO_PI == 0x1002;
  }

  /** `PollFlags::IN` and `PollFlags::OUT`: `POLLIN` and `POLLOUT`. */
  type PollFlags = bv16
  const POLLIN: PollFlags := 0x001
  const POLLOUT: PollFlags := 0x004

  /** The flags `poll` requests for an interest: `IN` exactly when the
      interest is readable, `OUT` exactly when it is writable, and nothing
      else. */
  function InterestFlags(interest: Event): (f: PollFlags)
    ensures f & POLLIN != 0 <==> interest.readable
    ensures f & POLLOUT != 0 <==> interest.writable
    ensures f & !(POLLIN | POLLOUT) == 0
  {
    (if interest.readable then POLLIN else 0) | (if interest.writable then POLLOUT else 0)
  }

  /** The event `poll` returns for the flags the system call reports:
      readable exactly when `IN` is set and writable exactly when `OUT` is,
      whatever other flags are set. */
  function EventOf(revents: PollFlags): (e: Event)
    ensures e.readable <==> revents & POLLIN != 0
    ensures e.writable <==> revents & POLLOUT != 0
  {
    var e := if revents & POLLIN != 0 then Union(EMPTY, READABLE) else EMPTY;
    if revents & POLLOUT != 0 then Union(e, WRITABLE) else e
  }

  /** Readiness survives the translation to `poll` flags and back. */
  lemma EventOfInterest(e: Event)
    ensures EventOf(InterestFlags(e)) == e
  {
    assert InterestFlags(e) & POLLIN != 0 <==> e.readable;
    assert InterestFlags(e) & POLLOUT != 0 <==> e.writable;
  }

  /** A timeout: `Duration`, as its whole seconds and its nanoseconds. */
  datatype Duration = Duration(secs: nat, nanos: nat)
  {
    /** `as_millis`: the whole milliseconds of the duration. */
    function AsMillis(): nat
    {
      secs * 1000 + nanos / 1_000_000
    }
  }

  type I32 = x: int | -0x8000_0000 <= x < 0x8000_0000

  /** `as i32` on a non-negative integer: the low 32 bits, read as two's
      complement. */
  function WrapI32(v: nat): (w: I32)
    ensures (w - v) % 0x1_0000_0000 == 0
    ensures v < 0x8000_0000 ==> w == v
  {
    var low := v % 0x1_0000_0000;
    if low < 0x8000_0000 then low else low - 0x1_0000_0000
  }

  /** The `poll(2)` timeout as written: -1 to wait without limit, otherwise
      the milliseconds cast to `i32`. */
  function TimeoutAsWritten(timeout: Option<Duration>): (ms: I32)
    ensures timeout.None? ==> ms == -1
  {
    match timeout
    case None => -1
    case Some(t) => WrapI32(t.AsMillis())
  }

  /** The cast wraps: a timeout of 2^31 milliseconds, about 24.9 days,
      becomes a negative timeout, which `poll(2)` takes as no limit, and
      one of 2^32 milliseconds becomes zero, which does not wait at all. */
  lemma LongTimeoutWraps()
    ensures TimeoutAsWritten(Some(Duration(2_147_483, 648_000_000))) == -0x8000_0000
    ensures TimeoutAsWritten(Some(Duration(4_294_967, 296_000_000))) == 0
  {
  }

  /** The timeout as intended: -1 without a timeout, otherwise the
      milliseconds, capped at the largest `i32`. */
  function Timeout(timeout: Option<Duration>): (ms: I32)
    ensures timeout.None? <==> ms == -1
    ensures timeout.Some? ==> ms == Min(timeout.value.AsMillis(), 0x7FFF_FFFF)
  {
    match timeout
    case None => -1
    case Some(t) => if t.AsMillis() < 0x7FFF_FFFF then t.AsMillis() else 0x7FFF_FFFF
  }

  function Min(a: int, b: int): int
  {
    if a < b then a else b
  }

  /** A finite timeout never becomes an unlimited wait, a longer timeout
      never waits less, and both versions agree below 2^31 milliseconds. */
  lemma TimeoutMonotone(a: Duration, b: Duration)
    requires a.AsMillis() <= b.AsMillis()
    ensures 0 <= Timeout(Some(a)) <= Timeout(Some(b))
    ensures a.AsMillis() < 0x8000_0000 ==> Timeout(Some(a)) == TimeoutAsWritten(Some(a))
  {
  }

  /** An error of the `poll` system call. */
  datatype PollError = PollError

  /** `poll`: build the requested flags from the interest, call `poll(2)`
      on the one descriptor with the corrected timeout, and build the event
      from the flags it reports; an error of the call is returned. */
  method Poll(interest: Event, timeout: Option<Duration>, syscall: (PollFlags, I32) -> Result<PollFlags, PollError>)
    returns (r: Result<Event, PollError>)
    ensures var reported := syscall(InterestFlags(interest), Timeout(timeout));
      && (r.Err? <==> reported.Err?)
      && (r.Ok? ==> r.value == EventOf(reported.value))
  {
    var flags: PollFlags := 0;
    if interest.readable {
      flags := flags | POLLIN;
    }
    if interest.writable {
      flags := flags | POLLOUT;
    }
    var ms := match timeout
      case Some(t) => if t.AsMillis() < 0x7FFF_FFFF then t.AsMillis() else 0x7FFF_FFFF
      case None => -1;
    var reported := syscall(flags, ms);
    if reported.Err? {
      return Err(reported.error);
    }
    var event := EMPTY;
    if reported.value & POLLIN != 0 {
      event := Union(event, READABLE);
    }
    if reported.value & POLLOUT != 0 {
      event := Union(event, WRITABLE);
    }
    return Ok(event);
  }
}
