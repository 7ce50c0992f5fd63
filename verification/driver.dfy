/**
 * The I/O driver (src/driver/mod.rs): a single-threaded event loop that
 * polls a future, and while the future is pending polls the network device
 * for readability, receives one frame into its buffer and hands it to the
 * header parsers for the device's hardware type.
 *
 * The future is a script of poll results, one per turn of the loop, that
 * stays `Pending` after its end. The device is a class whose poll and
 * receive results are scripted; when a script runs out, the device would
 * block for ever (`poll` is called without a timeout), which the loop
 * reports as `Blocked`. The IPv4 decoder the driver calls, and the two
 * `todo!()` length functions of the IEEE 802.15.4 parser, are parameters.
 */
module Driver {
  import opened Wrappers
  import opened Primitive
  import opened HeaderError
  import Checksum
  import InternetIp
  import LinkEthernet
  import LinkIeee802154
  import opened NetDevice

  /** One poll of the future. */
  datatype FuturePoll<T> = Pending | Ready(value: T)

  /** The handlers `process` can reach that are `todo!()`. */
  datatype Handler = ProcessIpv4 | ProcessIeee802154 | ProcessArp | ProcessIpv6

  /** The outcome of `process`: its result, a `todo!()` handler it reached,
      or a panic of the parse (an `unwrap`, an index out of range, or the
      checksum accumulator overflowing). */
  datatype ProcessOutcome = Returned(result: Result<(), HeaderTruncated>) | Unimplemented(handler: Handler) | Panicked

  /** The decoders the driver calls but does not define: `Ipv4::from_bytes`,
      seen through the `header_len` of the header it returns and the payload,
      and the length functions of the IEEE 802.15.4 parser. */
  datatype Decoders = Decoders(
    ipv4FromBytes: Bytes -> Result<(nat, Bytes), HeaderTruncated>,
    addressingLen: LinkIeee802154.FrameControl -> nat,
    securityLen: Byte -> nat)

  /** `process_ethernet`: IPv4 payloads go to `process_ipv4` once they
      decode, ARP and IPv6 are not implemented, and any other EtherType is
      dropped. */
  function ProcessEthernet(header: LinkEthernet.EthernetII, payload: Bytes, d: Decoders): (r: ProcessOutcome)
    ensures r == Returned(Ok(())) <==> header.Ethertype().Unknown?
    ensures r.Returned? && r.result.Err? <==> header.Ethertype() == LinkEthernet.Ipv4 && d.ipv4FromBytes(payload).Err?
    ensures r == Unimplemented(ProcessIpv4) <==> header.Ethertype() == LinkEthernet.Ipv4 && d.ipv4FromBytes(payload).Ok?
    ensures r == Unimplemented(ProcessArp) <==> header.Ethertype() == LinkEthernet.Arp
    ensures r == Unimplemented(ProcessIpv6) <==> header.Ethertype() == LinkEthernet.Ipv6
    ensures !r.Panicked?
  {
    match header.Ethertype()
    case Ipv4 =>
      (match d.ipv4FromBytes(payload)
       case Err(e) => Returned(Err(e))
       case Ok(_) => Unimplemented(ProcessIpv4))
    case Arp => Unimplemented(ProcessArp)
    case Ipv6 => Unimplemented(ProcessIpv6)
    case Unknown(_) => Returned(Ok(()))
  }

  /** The checksum test of the opaque IPv4 path: `verify_checksum` on a
      slice, a panic when the accumulator would overflow. It passes exactly
      when the ones'-complement sum of the slice is all ones. */
  function ChecksumPasses(s: Bytes): (r: Option<bool>)
    ensures r.None? <==> Checksum.WordSum(s) > 0xFFFF_FFFF
    ensures r.Some? ==> (r.value <==> Checksum.WordSum(s) > 0 && Checksum.WordSum(s) % 0xFFFF == 0)
  {
    if Checksum.WordSum(s) > 0xFFFF_FFFF then None
    else
      Checksum.VerifyMeaning(s);
      Some(Checksum.Verify(s).Ok?)
  }

  /** `process` as written. The IEEE 802.15.4 path runs the parser as
      written, whose out-of-range read panics like its `unwrap`. The opaque
      path decodes the version from the whole first byte, and checks the
      checksum over the first `header_len` bytes of the payload that
      follows the IPv4 header. */
  function ProcessAsWritten(hw: HardwareType, bytes: Bytes, d: Decoders): (r: ProcessOutcome)
    ensures hw == Opaque && (|bytes| == 0 || bytes[0] !in {4, 6}) ==> r == Returned(Ok(()))
    ensures hw == Opaque && |bytes| > 0 && bytes[0] == 4 && d.ipv4FromBytes(bytes).Ok? ==>
      var (headerLen, payload) := d.ipv4FromBytes(bytes).value;
      (r == Unimplemented(ProcessIpv4) <==>
         headerLen <= |payload| && ChecksumPasses(payload[..headerLen]) == Some(true))
  {
    match hw
    case EthernetII =>
      (match LinkEthernet.FromBytes(bytes)
       case Err(e) => Returned(Err(e))
       case Ok((header, payload)) => ProcessEthernet(header, payload, d))
    case Ieee802154 =>
      (match LinkIeee802154.FromBytesAsWritten(bytes, d.addressingLen, d.securityLen)
       case Some(Ok(_)) => Unimplemented(ProcessIeee802154)
       case _ => Panicked)
    case Opaque =>
      if |bytes| == 0 then Returned(Ok(()))
      else
        match InternetIp.IpVersionNew(bytes[0])
        case Ipv4 =>
          (match d.ipv4FromBytes(bytes)
           case Err(e) => Returned(Err(e))
           case Ok((headerLen, payload)) =>
             if headerLen > |payload| then Panicked
             else
               match ChecksumPasses(payload[..headerLen])
               case None => Panicked
               case Some(false) => Returned(Ok(()))
               case Some(true) => Unimplemented(ProcessIpv4))
        case Ipv6 => Unimplemented(ProcessIpv6)
        case Unknown(_) => Returned(Ok(()))
  }

  /** `process` with the opaque path corrected: the version is the high
      nibble of the first byte, and the checksum covers the IPv4 header,
      the first `header_len` bytes of the packet. */
  function Process(hw: HardwareType, bytes: Bytes, d: Decoders): (r: ProcessOutcome)
    ensures hw == Ieee802154 ==>
      && (r == Unimplemented(ProcessIeee802154) <==> LinkIeee802154.FromBytes(bytes, d.addressingLen, d.securityLen).Ok?)
      && (r == Panicked <==> LinkIeee802154.FromBytes(bytes, d.addressingLen, d.securityLen).Err?)
    ensures hw == Opaque && (|bytes| == 0 || bytes[0] / 16 !in {4, 6}) ==> r == Returned(Ok(()))
    ensures hw == Opaque && |bytes| > 0 && bytes[0] / 16 == 6 ==> r == Unimplemented(ProcessIpv6)
    ensures hw == Opaque ==>
      (r.Returned? && r.result.Err? <==> |bytes| > 0 && bytes[0] / 16 == 4 && d.ipv4FromBytes(bytes).Err?)
  {
    match hw
    case EthernetII =>
      (match LinkEthernet.FromBytes(bytes)
       case Err(e) => Returned(Err(e))
       case Ok((header, payload)) => ProcessEthernet(header, payload, d))
    case Ieee802154 =>
      (match LinkIeee802154.FromBytes(bytes, d.addressingLen, d.securityLen)
       case Err(_) => Panicked
       case Ok(_) => Unimplemented(ProcessIeee802154))
    case Opaque =>
      if |bytes| == 0 then Returned(Ok(()))
      else
        match InternetIp.IpVersionNew(bytes[0] / 16)
        case Ipv4 =>
          (match d.ipv4FromBytes(bytes)
           case Err(e) => Returned(Err(e))
           case Ok((headerLen, _)) =>
             if headerLen > |bytes| then Panicked
             else
               match ChecksumPasses(bytes[..headerLen])
               case None => Panicked
               case Some(false) => Returned(Ok(()))
               case Some(true) => Unimplemented(ProcessIpv4))
        case Ipv6 => Unimplemented(ProcessIpv6)
        case Unknown(_) => Returned(Ok(()))
  }

  /** What `process` decides beyond its own contract: a short Ethernet
      frame fails and a whole one goes to `process_ethernet` with the bytes
      after the header; an opaque IPv4 packet is handed on exactly when it
      decodes and its header checksum holds, and panics exactly when the
      decoded `header_len` overruns the packet or the checksum accumulator
      overflows. */
  lemma ProcessDecisions(hw: HardwareType, bytes: Bytes, d: Decoders)
    ensures var r := Process(hw, bytes, d);
      && (hw == EthernetII && |bytes| < LinkEthernet.HEADER_LEN ==> r == Returned(Err(HeaderTruncated)))
      && (hw == EthernetII && |bytes| >= LinkEthernet.HEADER_LEN ==>
            r == ProcessEthernet(LinkEthernet.FromBytes(bytes).value.0, bytes[LinkEthernet.HEADER_LEN..], d))
      && (hw == Opaque && r == Unimplemented(ProcessIpv4) <==>
            hw == Opaque && |bytes| > 0 && bytes[0] / 16 == 4 && d.ipv4FromBytes(bytes).Ok?
            && d.ipv4FromBytes(bytes).value.0 <= |bytes|
            && ChecksumPasses(bytes[..d.ipv4FromBytes(bytes).value.0]) == Some(true))
      && (hw == Opaque && r == Panicked <==>
            hw == Opaque && |bytes| > 0 && bytes[0] / 16 == 4 && d.ipv4FromBytes(bytes).Ok?
            && (d.ipv4FromBytes(bytes).value.0 > |bytes|
                || ChecksumPasses(bytes[..d.ipv4FromBytes(bytes).value.0]).None?))
  {
    if hw == EthernetII && |bytes| >= LinkEthernet.HEADER_LEN {
      var (header, payload) := LinkEthernet.FromBytes(bytes).value;
      assert header.ToBytes() + payload == bytes;
      assert payload == bytes[LinkEthernet.HEADER_LEN..];
    }
  }

  /** The two versions differ only on opaque devices: Ethernet frames and
      IEEE 802.15.4 frames are processed alike, the out-of-range read of the
      802.15.4 parser as written panicking exactly where the corrected parser
      fails and `unwrap` panics. */
  lemma AsWrittenAgreesOffOpaque(hw: HardwareType, bytes: Bytes, d: Decoders)
    requires hw != Opaque
    ensures ProcessAsWritten(hw, bytes, d) == Process(hw, bytes, d)
  {
    if hw == Ieee802154 {
      var w := LinkIeee802154.FromBytesAsWritten(bytes, d.addressingLen, d.securityLen);
      if w.Some? {
        LinkIeee802154.AsWrittenAgrees(bytes, d.addressingLen, d.securityLen);
      } else {
        assert LinkIeee802154.FromBytes(bytes, d.addressingLen, d.securityLen).Err?;
      }
    }
  }

  /** On an opaque device a first byte with a version nibble other than 4
      and 6 is dropped by both versions, as is an empty packet. */
  lemma AsWrittenAgreesOnOtherVersions(bytes: Bytes, d: Decoders)
    requires |bytes| == 0 || (bytes[0] / 16 !in {4, 6} && bytes[0] !in {4, 6})
    ensures ProcessAsWritten(Opaque, bytes, d) == Process(Opaque, bytes, d) == Returned(Ok(()))
  {
  }

  /** Read as a whole byte, the first byte of an IPv4 header selects IPv4
      only when it is exactly 4, a header length of zero words; every real
      IPv4 packet, whose first byte is 0x45 to 0x4F, is dropped. */
  lemma WholeByteVersionDropsIpv4(bytes: Bytes, d: Decoders)
    requires |bytes| > 0 && 0x45 <= bytes[0] <= 0x4F
    ensures ProcessAsWritten(Opaque, bytes, d) == Returned(Ok(()))
    ensures bytes[0] / 16 == 4
  {
  }

  /** A decoder that reads a 20-byte IPv4 header without options. */
  function Ipv4NoOptions(b: Bytes): Result<(nat, Bytes), HeaderTruncated>
  {
    if |b| >= 20 then Ok((20, b[20..])) else Err(HeaderTruncated)
  }

  const PLAIN_DECODERS: Decoders := Decoders(Ipv4NoOptions, _ => 0, _ => 0)

  /** An opaque IPv4 packet is handed to `process_ipv4` once it decodes and
      the checksum over its first `header_len` bytes holds. */
  lemma OpaqueIpv4Delivered(bytes: Bytes, d: Decoders)
    requires |bytes| > 0 && bytes[0] / 16 == 4
    requires d.ipv4FromBytes(bytes).Ok? && d.ipv4FromBytes(bytes).value.0 <= |bytes|
    requires var header := bytes[..d.ipv4FromBytes(bytes).value.0];
      Checksum.WordSum(header) <= 0xFFFF_FFFF && Checksum.Verify(header).Ok?
    ensures Process(Opaque, bytes, d) == Unimplemented(ProcessIpv4)
  {
  }

  /** An opaque IPv4 packet whose header checksum fails over its first
      `header_len` bytes is dropped without error. */
  lemma OpaqueIpv4Dropped(bytes: Bytes, d: Decoders)
    requires |bytes| > 0 && bytes[0] / 16 == 4
    requires d.ipv4FromBytes(bytes).Ok? && d.ipv4FromBytes(bytes).value.0 <= |bytes|
    requires var header := bytes[..d.ipv4FromBytes(bytes).value.0];
      Checksum.WordSum(header) <= 0xFFFF_FFFF && Checksum.Verify(header).Err?
    ensures Process(Opaque, bytes, d) == Returned(Ok(()))
  {
  }

  /** The first sample IPv4 header of the checksum tests, on its own: the
      code as written drops it, the corrected code accepts its checksum and
      hands it to `process_ipv4`. */
  lemma SampleIpv4Packet()
    ensures ProcessAsWritten(Opaque, Checksum.SAMPLE_1, PLAIN_DECODERS) == Returned(Ok(()))
    ensures Process(Opaque, Checksum.SAMPLE_1, PLAIN_DECODERS) == Unimplemented(ProcessIpv4)
  {
    WholeByteVersionDropsIpv4(Checksum.SAMPLE_1, PLAIN_DECODERS);
    Checksum.SampleHeaderValid();
    assert Checksum.SAMPLE_1[..20] == Checksum.SAMPLE_1;
    OpaqueIpv4Delivered(Checksum.SAMPLE_1, PLAIN_DECODERS);
  }

  /** On an opaque device an IPv4 packet whose checksum fails is dropped
      silently, while a packet the IPv4 decoder rejects makes `process`
      fail. */
  lemma OpaqueIpv4Outcomes()
    ensures Process(Opaque, Checksum.SAMPLE_1_CORRUPTED, PLAIN_DECODERS) == Returned(Ok(()))
    ensures Process(Opaque, [0x45], PLAIN_DECODERS) == Returned(Err(HeaderTruncated))
  {
    Checksum.SampleHeaderCorrupted();
    assert Checksum.SAMPLE_1_CORRUPTED[..20] == Checksum.SAMPLE_1_CORRUPTED;
    OpaqueIpv4Dropped(Checksum.SAMPLE_1_CORRUPTED, PLAIN_DECODERS);
  }

  /** When the version does select IPv4, the code as written checksums the
      bytes after the header: a 20-byte packet leaves an empty payload, and
      slicing 20 bytes of it panics. */
  lemma ChecksumOverPayloadPanics()
    ensures ProcessAsWritten(Opaque, [4] + seq(19, _ => 0), PLAIN_DECODERS) == Panicked
  {
    var b: Bytes := [4] + seq(19, _ => 0);
    assert |b| == 20 && b[0] == 4;
    assert b[20..] == [];
  }

  /** `process` on a device of hardware type `hw`, as a function of the
      received bytes. */
  function ProcessOn(hw: HardwareType, d: Decoders): (p: Bytes -> ProcessOutcome)
    ensures forall bytes :: p(bytes) == Process(hw, bytes, d)
  {
    bytes => Process(hw, bytes, d)
  }

  /** The outcome of `turn`. */
  datatype Panic = PollFailed | RecvFailed | ProcessFailed | ParsePanicked

  datatype TurnOutcome<T> = Completed(value: T) | Blocked | Failed(reason: Panic) | Todo(handler: Handler)

  /** The future's poll at turn `i`; it stays pending after its script. */
  function FutureAt<T>(future: seq<FuturePoll<T>>, i: nat): FuturePoll<T>
  {
    if i < |future| then future[i] else Pending
  }

  /** What the loop does from turn `i` on, given the device's remaining
      poll and receive scripts and the buffer size: the outcome, and how
      many polls and receives it consumes. */
  datatype Run<T> = Run(outcome: TurnOutcome<T>, polls: nat, recvs: nat)

  function Frame(frame: Bytes, mtu: nat): (data: Bytes)
    ensures |data| <= mtu && |data| <= |frame| && data == frame[..|data|]
    ensures |frame| <= mtu ==> data == frame
  {
    if |frame| <= mtu then frame else frame[..mtu]
  }

  /** What one receive gives the loop: no frame (the device would block),
      a receive error, or the outcome of processing the frame. */
  datatype Received = NoFrame | RecvError | Processed(outcome: ProcessOutcome)

  /** One `recv` from the frame script followed by `process` on the bytes
      that fit the buffer. */
  function ReceiveStep(frames: seq<Result<Bytes, ()>>, process: Bytes -> ProcessOutcome, mtu: nat): (r: Received)
    ensures r.NoFrame? <==> |frames| == 0
    ensures r.RecvError? <==> |frames| > 0 && frames[0].Err?
  {
    if |frames| == 0 then NoFrame
    else if frames[0].Err? then RecvError
    else Processed(process(Frame(frames[0].value, mtu)))
  }

  /** How a receive ends the loop, if it does: only a frame that `process`
      accepts lets the loop go on. */
  function Stop<T>(step: Received): (o: Option<TurnOutcome<T>>)
    ensures o.None? <==> step.Processed? && step.outcome.Returned? && step.outcome.result.Ok?
  {
    match step
    case NoFrame => Some(Blocked)
    case RecvError => Some(Failed(RecvFailed))
    case Processed(Returned(Ok(_))) => None
    case Processed(Returned(Err(_))) => Some(Failed(ProcessFailed))
    case Processed(Unimplemented(h)) => Some(Todo(h))
    case Processed(Panicked) => Some(Failed(ParsePanicked))
  }

  function TurnSpec<T>(future: seq<FuturePoll<T>>, i: nat, events: seq<Result<Event, ()>>,
                       frames: seq<Result<Bytes, ()>>, process: Bytes -> ProcessOutcome, mtu: nat): (r: Run<T>)
    ensures r.polls <= |events| && r.recvs <= |frames|
    decreases |events|
  {
    if FutureAt(future, i).Ready? then Run(Completed(FutureAt(future, i).value), 0, 0)
    else if |events| == 0 then Run(Blocked, 0, 0)
    else if events[0].Err? then Run(Failed(PollFailed), 1, 0)
    else if !events[0].value.readable then
      var rest := TurnSpec(future, i + 1, events[1..], frames, process, mtu);
      Run(rest.outcome, rest.polls + 1, rest.recvs)
    else
      var step := ReceiveStep(frames, process, mtu);
      match Stop(step)
      case Some(o) => Run(o, 1, if step.NoFrame? then 0 else 1)
      case None =>
        var rest := TurnSpec(future, i + 1, events[1..], frames[1..], process, mtu);
        Run(rest.outcome, rest.polls + 1, rest.recvs + 1)
  }

  /** The number of readable events in a poll script. */
  function Readable(events: seq<Result<Event, ()>>): nat
  {
    if |events| == 0 then 0
    else (if events[0].Ok? && events[0].value.readable then 1 else 0) + Readable(events[1..])
  }

  /** `recv` runs only after a readable event, at most once per turn: the
      receives consumed are the readable polls, less one when the last
      receive blocks. */
  lemma {:induction false} RecvOnlyWhenReadable<T>(future: seq<FuturePoll<T>>, i: nat, events: seq<Result<Event, ()>>,
                                                  frames: seq<Result<Bytes, ()>>, process: Bytes -> ProcessOutcome, mtu: nat)
    ensures var r := TurnSpec(future, i, events, frames, process, mtu);
      r.recvs <= Readable(events[..r.polls]) <= r.recvs + 1
    decreases |events|
  {
    var r := TurnSpec(future, i, events, frames, process, mtu);
    if FutureAt(future, i).Ready? || |events| == 0 {
      assert events[..r.polls] == [];
    } else if r.polls > 0 {
      assert events[..r.polls][1..] == events[1..][..r.polls - 1];
      if !events[0].Err? && (!events[0].value.readable
          || Stop<T>(ReceiveStep(frames, process, mtu)).None?) {
        if events[0].value.readable {
          RecvOnlyWhenReadable(future, i + 1, events[1..], frames[1..], process, mtu);
        } else {
          RecvOnlyWhenReadable(future, i + 1, events[1..], frames, process, mtu);
        }
      } else {
        assert r.polls == 1;
        assert events[1..][..0] == [];
      }
    }
  }

  /** Every event with its writable flag cleared. */
  function ClearWritable(events: seq<Result<Event, ()>>): (r: seq<Result<Event, ()>>)
    ensures |r| == |events|
  {
    if |events| == 0 then []
    else [if events[0].Ok? then Ok(Event(events[0].value.readable, false)) else events[0]] + ClearWritable(events[1..])
  }

  /** `dispatch` does nothing: whether the device also reports writability
      changes nothing in the loop. */
  lemma {:induction false} WritableIgnored<T>(future: seq<FuturePoll<T>>, i: nat, events: seq<Result<Event, ()>>,
                                             frames: seq<Result<Bytes, ()>>, process: Bytes -> ProcessOutcome, mtu: nat)
    ensures TurnSpec(future, i, ClearWritable(events), frames, process, mtu) == TurnSpec(future, i, events, frames, process, mtu)
    decreases |events|
  {
    if |events| > 0 {
      assert ClearWritable(events)[1..] == ClearWritable(events[1..]);
      WritableIgnored(future, i + 1, events[1..], frames, process, mtu);
      if |frames| > 0 {
        WritableIgnored(future, i + 1, events[1..], frames[1..], process, mtu);
      }
    }
  }

  /** Dropping `a` elements and then `b` drops `a + b`. */
  lemma DropDrop<X>(s: seq<X>, a: nat, b: nat)
    requires a + b <= |s|
    ensures s[a..][b..] == s[a + b..]
  {
  }

  /** One iteration of `turn` keeps the loop's account: what the device
      has consumed so far, plus what the rest of the turn will consume, is
      what the whole turn consumes. */
  lemma TurnAdvance<T>(future: seq<FuturePoll<T>>, i: nat, process: Bytes -> ProcessOutcome, mtu: nat, spec: Run<T>,
                       events0: seq<Result<Event, ()>>, frames0: seq<Result<Bytes, ()>>,
                       events1: seq<Result<Event, ()>>, frames1: seq<Result<Bytes, ()>>,
                       events2: seq<Result<Event, ()>>, frames2: seq<Result<Bytes, ()>>,
                       stop: Option<TurnOutcome<T>>, polled: nat, received: nat, p: nat, q: nat)
    requires polled <= |events0| && received <= |frames0|
    requires events1 == events0[polled..] && frames1 == frames0[received..]
    requires var now := TurnSpec(future, i, events1, frames1, process, mtu);
      spec == Run(now.outcome, now.polls + polled, now.recvs + received)
    requires p <= |events1| && q <= |frames1|
    requires events2 == events1[p..] && frames2 == frames1[q..]
    requires var now := TurnSpec(future, i, events1, frames1, process, mtu);
      var rest := TurnSpec(future, i + 1, events2, frames2, process, mtu);
      now == if stop.Some? then Run(stop.value, p, q) else Run(rest.outcome, rest.polls + p, rest.recvs + q)
    ensures polled + p <= |events0| && received + q <= |frames0|
    ensures events2 == events0[polled + p..] && frames2 == frames0[received + q..]
    ensures stop.Some? ==> spec == Run(stop.value, polled + p, received + q)
    ensures stop.None? ==> var rest := TurnSpec(future, i + 1, events2, frames2, process, mtu);
      spec == Run(rest.outcome, rest.polls + polled + p, rest.recvs + received + q)
  {
    DropDrop(events0, polled, p);
    DropDrop(frames0, received, q);
  }

  /** A scripted network device. */
  class NetDev {
    const hw: HardwareType
    /** The results its polls will return, and the frames its receives will
        deliver. */
    var events: seq<Result<Event, ()>>
    var frames: seq<Result<Bytes, ()>>
    /** The interest and timeout of every poll so far. */
    var requests: seq<(Event, Option<nat>)>

    constructor(hw: HardwareType, events: seq<Result<Event, ()>>, frames: seq<Result<Bytes, ()>>)
      ensures this.hw == hw && this.events == events && this.frames == frames && requests == []
    {
      this.hw := hw;
      this.events := events;
      this.frames := frames;
      requests := [];
    }

    /** `poll`: the next scripted result, or `None` when the device would
        block. */
    method Poll(interest: Event, timeout: Option<nat>) returns (r: Option<Result<Event, ()>>)
      modifies this
      ensures r.None? <==> |old(events)| == 0
      ensures r.Some? ==> r.value == old(events)[0] && events == old(events)[1..]
      ensures r.None? ==> events == old(events)
      ensures requests == old(requests) + [(interest, timeout)] && frames == old(frames)
    {
      requests := requests + [(interest, timeout)];
      if |events| == 0 {
        return None;
      }
      r := Some(events[0]);
      events := events[1..];
    }

    /** `recv`: the next scripted frame copied into the front of `buffer`,
        cut to its length, and the number of bytes copied. */
    method Recv(buffer: array<Byte>) returns (r: Option<Result<nat, ()>>)
      modifies this, buffer
      ensures r.None? <==> |old(frames)| == 0
      ensures r.Some? ==> frames == old(frames)[1..]
      ensures r.Some? ==> (r.value.Err? <==> old(frames)[0].Err?)
      ensures r.Some? && r.value.Ok? ==>
        r.value.value <= buffer.Length && buffer[..r.value.value] == Frame(old(frames)[0].value, buffer.Length)
      ensures r.None? ==> frames == old(frames)
      ensures events == old(events) && requests == old(requests)
    {
      if |frames| == 0 {
        return None;
      }
      var next := frames[0];
      frames := frames[1..];
      if next.Err? {
        return Some(Err(()));
      }
      var data := Frame(next.value, buffer.Length);
      forall i | 0 <= i < |data| {
        buffer[i] := data[i];
      }
      return Some(Ok(|data|));
    }
  }

  /** `Driver`: a device and the receive buffer of `MTU` bytes. */
  class Driver {
    const netdev: NetDev
    const buffer: array<Byte>

    /** `Driver::new`: a zeroed buffer. */
    constructor(netdev: NetDev, mtu: nat)
      ensures this.netdev == netdev && buffer.Length == mtu && fresh(buffer)
      ensures forall i :: 0 <= i < mtu ==> buffer[i] == 0
    {
      this.netdev := netdev;
      buffer := new Byte[mtu](_ => 0);
    }

    /** `dispatch`: nothing to send yet. */
    method Dispatch()
    {
    }

    /** `recv` into the buffer, then `process` on `buffer[..read]`: the
        next scripted frame, cut to the buffer, is processed. */
    method ReceiveAndProcess(d: Decoders) returns (r: Received)
      modifies netdev, buffer
      ensures r == ReceiveStep(old(netdev.frames), ProcessOn(netdev.hw, d), buffer.Length)
      ensures netdev.frames == if r.NoFrame? then old(netdev.frames) else old(netdev.frames)[1..]
      ensures netdev.events == old(netdev.events) && netdev.requests == old(netdev.requests)
    {
      var read := netdev.Recv(buffer);
      if read.None? {
        return NoFrame;
      }
      if read.value.Err? {
        return RecvError;
      }
      return Processed(Process(netdev.hw, buffer[..read.value.value], d));
    }

    /** One iteration of `turn`: poll the future; if it is pending, poll
        the device for readability without a timeout, call `dispatch` when
        it is writable, and when it is readable receive one frame and
        process it. The outcome, if the iteration ends the loop, and the
        polls, receives and poll requests it consumes, are those of one
        unfolding of `TurnSpec`. */
    method Step<T>(future: seq<FuturePoll<T>>, i: nat, d: Decoders)
      returns (stop: Option<TurnOutcome<T>>, ghost polls: nat, ghost recvs: nat)
      modifies netdev, buffer
      ensures polls <= |old(netdev.events)| && recvs <= |old(netdev.frames)|
      ensures netdev.events == old(netdev.events)[polls..] && netdev.frames == old(netdev.frames)[recvs..]
      ensures netdev.requests == old(netdev.requests) || netdev.requests == old(netdev.requests) + [(READABLE, None)]
      ensures stop.None? ==> polls == 1 && netdev.requests == old(netdev.requests) + [(READABLE, None)]
      ensures var process := ProcessOn(netdev.hw, d);
        var now := TurnSpec(future, i, old(netdev.events), old(netdev.frames), process, buffer.Length);
        var rest := TurnSpec(future, i + 1, netdev.events, netdev.frames, process, buffer.Length);
        now == if stop.Some? then Run(stop.value, polls, recvs) else Run(rest.outcome, rest.polls + polls, rest.recvs + recvs)
    {
      polls, recvs := 0, 0;
      var poll := FutureAt(future, i);
      if poll.Ready? {
        return Some(Completed(poll.value)), polls, recvs;
      }
      var event := netdev.Poll(READABLE, None);
      if event.None? {
        return Some(Blocked), polls, recvs;
      }
      polls := 1;
      if event.value.Err? {
        return Some(Failed(PollFailed)), polls, recvs;
      }
      if event.value.value.writable {
        Dispatch();
      }
      stop := None;
      if event.value.value.readable {
        var step := ReceiveAndProcess(d);
        if !step.NoFrame? {
          recvs := 1;
        }
        stop := Stop<T>(step);
      }
    }

    /** `turn`: run iterations until the future is ready, a device call or
        `process` fails (the `expect`s), a handler that is not implemented
        is reached, or the device would block for ever. Each iteration's
        device poll, which asks for readability without a timeout, is
        stated by `Step`. */
    method Turn<T>(future: seq<FuturePoll<T>>, d: Decoders) returns (r: TurnOutcome<T>)
      modifies netdev, buffer
      ensures var spec := TurnSpec(future, 0, old(netdev.events), old(netdev.frames), ProcessOn(netdev.hw, d), buffer.Length);
        && r == spec.outcome
        && netdev.events == old(netdev.events)[spec.polls..]
        && netdev.frames == old(netdev.frames)[spec.recvs..]
    {
      var i := 0;
      ghost var process := ProcessOn(netdev.hw, d);
      ghost var spec := TurnSpec(future, 0, netdev.events, netdev.frames, process, buffer.Length);
      ghost var polled: nat := 0;
      ghost var received: nat := 0;
      while true
        invariant polled <= |old(netdev.events)| && received <= |old(netdev.frames)|
        invariant netdev.events == old(netdev.events)[polled..]
        invariant netdev.frames == old(netdev.frames)[received..]
        invariant var rest := TurnSpec(future, i, netdev.events, netdev.frames, process, buffer.Length);
          spec == Run(rest.outcome, rest.polls + polled, rest.recvs + received)
        decreases |netdev.events|
      {
        ghost var events, frames := netdev.events, netdev.frames;
        var stop;
        ghost var p, q;
        stop, p, q := Step(future, i, d);
        TurnAdvance(future, i, process, buffer.Length, spec, old(netdev.events), old(netdev.frames),
                    events, frames, netdev.events, netdev.frames, stop, polled, received, p, q);
        polled, received := polled + p, received + q;
        if stop.Some? {
          return stop.value;
        }
        i := i + 1;
      }
    }
  }

  /** A future that is ready at once completes without touching the
      device. */
  lemma ReadyFirst<T>(v: T, future: seq<FuturePoll<T>>, events: seq<Result<Event, ()>>,
                      frames: seq<Result<Bytes, ()>>, process: Bytes -> ProcessOutcome, mtu: nat)
    requires |future| > 0 && future[0] == Ready(v)
    ensures TurnSpec(future, 0, events, frames, process, mtu) == Run(Completed(v), 0, 0)
  {
  }

  /** An Ethernet frame shorter than its header makes `process` fail, and
      the driver's `expect` panics. */
  lemma ShortEthernetFrameFails<T>(future: seq<FuturePoll<T>>, frame: Bytes, mtu: nat, d: Decoders)
    requires (|future| == 0 || future[0].Pending?) && |frame| < LinkEthernet.HEADER_LEN
    ensures TurnSpec(future, 0, [Ok(READABLE)], [Ok(frame)], ProcessOn(EthernetII, d), mtu).outcome == Failed(ProcessFailed)
  {
  }
}
