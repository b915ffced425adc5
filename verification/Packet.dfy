/**
  The kernel probe that finds DNS messages in IP packets, against an encoder of the header formats:
  IPv4 (section 3.1 of RFC 791), IPv6 (section 3 of RFC 8200) and UDP (RFC 768).
 */
module Packet {
  import opened Basics

  const AF_INET: nat := 2
  const AF_INET6: nat := 10
  const PROTO_TCP: uint8 := 6
  const PROTO_UDP: uint8 := 17
  const DNS_MIN_LEN: nat := 12
  const DNS_CAPTURE_MAX: nat := 1232
  const DNS_PORT: nat := 53

  datatype Counter =
    | RingbufFail | BadL3 | BadIPv4 | IPv4Fragment | IPv6Ext | BadUDP | DnsShort | DnsTruncated | DnsTcpSeen

  /** A ring-buffer record; payload is the fixed buffer, of which only capturedLen bytes were written. */
  datatype DnsEvent = DnsEvent(
    ifindex: uint32, timestampNS: uint64, direction: uint8, family: nat,
    messageLen: uint16, capturedLen: uint16, payload: seq<uint8>)

  // ----- network byte order -----

  function Be16(hi: uint8, lo: uint8): uint16 {
    hi * 256 + lo
  }

  lemma Be16OfBytes(n: uint16)
    ensures Be16(n / 256, n % 256) == n
  {
  }

  // ----- bits of a byte -----

  /** b >> 4 */
  function HighNibble(b: uint8): nat {
    b / 16
  }

  /** b & 15 */
  function LowNibble(b: uint8): nat {
    b % 16
  }

  /** b & 0x3f */
  function LowSix(b: uint8): nat {
    b % 64
  }

  /** The arithmetic forms are the shifts and masks of the source. */
  lemma BitsOfByte(b: bv8)
    ensures (b >> 4) as int == HighNibble(b as int)
    ensures (b & 15) as int == LowNibble(b as int)
    ensures (b & 0x3f) as int == LowSix(b as int)
  {
  }

  /** The fragment test on the big-endian word is a test of its two bytes. */
  lemma FragmentBits(hi: bv8, lo: bv8)
    ensures (((hi as bv16) << 8) | (lo as bv16)) & 0x3fff == 0 <==> hi & 0x3f == 0 && lo == 0
  {
  }

  lemma FragmentWord(hi: uint8, lo: uint8)
    ensures Be16(hi, lo) % 0x4000 == 0 <==> LowSix(hi) == 0 && lo == 0
  {
    var low := hi % 64 * 256 + lo;
    assert Be16(hi, lo) == 0x4000 * (hi / 64) + low && 0 <= low < 0x4000;
  }

  // ----- the encoder -----

  /** An IP header that announces UDP: everything the standards leave free is a field. */
  datatype IpHeader =
    | V4(ihl: uint8, tos: uint8, totalLength: uint16, id: uint16, flags: uint8, ttl: uint8, checksum: uint16, addresses: seq<uint8>, options: seq<uint8>)
    | V6(class0: uint8, class1: uint8, flow: uint16, payloadLength: uint16, hopLimit: uint8, addresses: seq<uint8>)

  /** An unfragmented IPv4 header with its options, or an IPv6 header without extensions. */
  predicate ValidHeader(h: IpHeader) {
    match h
    case V4(ihl, _, _, _, flags, _, _, addresses, options) =>
      5 <= ihl <= 15 && flags % 64 == 0 && |addresses| == 8 && |options| == (ihl - 5) * 4
    case V6(class0, _, _, _, _, addresses) => class0 < 16 && |addresses| == 32
  }

  function EncodeHeader(h: IpHeader): seq<uint8>
    requires ValidHeader(h)
  {
    match h
    case V4(ihl, tos, totalLength, id, flags, ttl, checksum, addresses, options) =>
      var fixed: seq<uint8> := [0x40 + ihl, tos, totalLength / 256, totalLength % 256, id / 256, id % 256, flags, 0, ttl, 17,
                                checksum / 256, checksum % 256];
      fixed + addresses + options
    case V6(class0, class1, flow, payloadLength, hopLimit, addresses) =>
      var fixed: seq<uint8> := [0x60 + class0, class1, flow / 256, flow % 256, payloadLength / 256, payloadLength % 256, 17, hopLimit];
      fixed + addresses
  }

  function EncodeUdp(source: uint16, destination: uint16, checksum: uint16, length: uint16): (r: seq<uint8>)
    ensures |r| == 8
  {
    [source / 256, source % 256, destination / 256, destination % 256, length / 256, length % 256, checksum / 256, checksum % 256]
  }

  datatype Datagram = Datagram(header: IpHeader, source: uint16, destination: uint16, checksum: uint16, payload: seq<uint8>)

  predicate ValidDatagram(d: Datagram) {
    ValidHeader(d.header) && |d.payload| + 8 < 0x1_0000
  }

  function Encode(d: Datagram): seq<uint8>
    requires ValidDatagram(d)
  {
    EncodeHeader(d.header) + EncodeUdp(d.source, d.destination, d.checksum, |d.payload| + 8) + d.payload
  }

  function FamilyOf(h: IpHeader): nat {
    if h.V4? then 2 else 10
  }

  // ----- the probe, as a function of the packet -----

  /** bpf_skb_load_bytes: the range must lie inside the packet. */
  function Load(skb: seq<uint8>, off: nat, len: nat): Option<seq<uint8>> {
    if off + len <= |skb| then Some(skb[off..off + len]) else None
  }

  /** What one packet leads to: the counters it bumps, and where its DNS message lies if it has one. */
  datatype Verdict = Verdict(counts: seq<Counter>, dns: Option<Location>)
  datatype Location = Location(family: nat, off: nat, len: uint16)

  const IGNORED: Verdict := Verdict([], None)

  function Counted(c: Counter): Verdict {
    Verdict([c], None)
  }

  function TcpVerdict(skb: seq<uint8>, off: nat): (v: Verdict)
    ensures v.dns.None?
  {
    var ports := Load(skb, off, 4);
    if ports.Some? && (Be16(ports.value[0], ports.value[1]) == DNS_PORT || Be16(ports.value[2], ports.value[3]) == DNS_PORT)
    then Counted(DnsTcpSeen) else IGNORED
  }

  function UdpVerdict(skb: seq<uint8>, family: nat, off: nat): Verdict {
    var udp := Load(skb, off, 8);
    if udp.None? then Counted(BadUDP)
    else
      var length := Be16(udp.value[4], udp.value[5]);
      if Be16(udp.value[0], udp.value[1]) != DNS_PORT && Be16(udp.value[2], udp.value[3]) != DNS_PORT then IGNORED
      else if length < 8 then Counted(BadUDP)
      else if length - 8 < DNS_MIN_LEN then Counted(DnsShort)
      else Verdict(if length - 8 > DNS_CAPTURE_MAX then [DnsTruncated] else [], Some(Location(family, off + 8, length - 8)))
  }

  function Examine(skb: seq<uint8>): Verdict {
    if |skb| == 0 then Counted(BadL3)
    else if HighNibble(skb[0]) == 4 then
      var ihl := LowNibble(skb[0]) * 4;
      if |skb| < 20 || ihl < 20 then Counted(BadIPv4)
      else if LowSix(skb[6]) != 0 || skb[7] != 0 then Counted(IPv4Fragment)
      else if skb[9] == PROTO_TCP then TcpVerdict(skb, ihl)
      else if skb[9] != PROTO_UDP then IGNORED
      else UdpVerdict(skb, AF_INET, ihl)
    else if HighNibble(skb[0]) == 6 then
      if |skb| < 40 then Counted(IPv6Ext)
      else if skb[6] == PROTO_TCP then TcpVerdict(skb, 40)
      else if skb[6] != PROTO_UDP then Counted(IPv6Ext)
      else UdpVerdict(skb, AF_INET6, 40)
    else Counted(BadL3)
  }

  /** The record for a located message, over a reserved buffer that still holds stale bytes. */
  function EventAt(skb: seq<uint8>, at: Location, ifindex: uint32, now: uint64, direction: uint8, stale: seq<uint8>): DnsEvent
    requires |stale| == DNS_CAPTURE_MAX && at.off + Min(at.len, DNS_CAPTURE_MAX) <= |skb|
  {
    var cap := Min(at.len, DNS_CAPTURE_MAX);
    DnsEvent(ifindex, now, direction, at.family, at.len, cap, skb[at.off..at.off + cap] + stale[cap..])
  }

  /** What the probe does in the end: counters to bump, and records to submit (none or one). */
  datatype Effect = Effect(counts: seq<Counter>, events: seq<DnsEvent>)

  /** reserved is the ring-buffer slot with the bytes it last held, None when the ring is full. */
  function EffectOf(v: Verdict, skb: seq<uint8>, ifindex: uint32, now: uint64, direction: uint8, reserved: Option<seq<uint8>>): Effect
    requires reserved.Some? ==> |reserved.value| == DNS_CAPTURE_MAX
  {
    if v.dns.None? then Effect(v.counts, [])
    else if reserved.None? then Effect(v.counts + [RingbufFail], [])
    else if v.dns.value.off + Min(v.dns.value.len, DNS_CAPTURE_MAX) > |skb| then Effect(v.counts + [BadUDP], [])
    else Effect(v.counts, [EventAt(skb, v.dns.value, ifindex, now, direction, reserved.value)])
  }

  // ----- the probe, as it runs -----

  class Probe {
    var counters: map<Counter, uint64>
    var events: seq<DnsEvent>

    constructor ()
      ensures events == [] && forall c :: c in counters && counters[c] == 0
    {
      events := [];
      counters := map[RingbufFail := 0, BadL3 := 0, BadIPv4 := 0, IPv4Fragment := 0, IPv6Ext := 0, BadUDP := 0,
                      DnsShort := 0, DnsTruncated := 0, DnsTcpSeen := 0];
      new;
      assert forall c: Counter :: c in counters by {
        forall c: Counter ensures c in counters {
          match c
          case RingbufFail => case BadL3 => case BadIPv4 => case IPv4Fragment => case IPv6Ext =>
          case BadUDP => case DnsShort => case DnsTruncated => case DnsTcpSeen =>
        }
      }
    }

    static function Bumped(counters: map<Counter, uint64>, cs: seq<Counter>): map<Counter, uint64> {
      if cs == [] then counters
      else
        var m := Bumped(counters, cs[..|cs| - 1]);
        var c := cs[|cs| - 1];
        if c in m then m[c := (m[c] + 1) % TWO_TO_THE_64] else m
    }

    method Count(c: Counter)
      modifies this`counters
      ensures counters == Bumped(old(counters), [c])
    {
      assert Bumped(counters, []) == counters;
      if c in counters {
        counters := counters[c := (counters[c] + 1) % TWO_TO_THE_64];
      }
    }

    method DetectDnsTcp(skb: seq<uint8>, off: nat)
      modifies this`counters
      ensures counters == Bumped(old(counters), TcpVerdict(skb, off).counts)
    {
      var ports := Load(skb, off, 4);
      if ports.None? {
        return;
      }
      var sport, dport := Be16(ports.value[0], ports.value[1]), Be16(ports.value[2], ports.value[3]);
      if sport == DNS_PORT || dport == DNS_PORT {
        Count(DnsTcpSeen);
      }
    }

    method DnsPacket(skb: seq<uint8>, direction: uint8, ifindex: uint32, now: uint64, reserved: Option<seq<uint8>>)
      requires reserved.Some? ==> |reserved.value| == DNS_CAPTURE_MAX
      modifies this
      ensures var effect := EffectOf(Examine(skb), skb, ifindex, now, direction, reserved);
              counters == Bumped(old(counters), effect.counts) && events == old(events) + effect.events
    {
      assert Bumped(counters, []) == counters;
      hide Bumped, Be16, TcpVerdict, UdpVerdict;
      var off, family := 0, 0;
      var first := Load(skb, 0, 1);
      if first.None? {
        Count(BadL3);
        return;
      }
      if HighNibble(first.value[0]) == 4 {
        var ip4 := Load(skb, off, 20);
        if ip4.None? {
          Count(BadIPv4);
          return;
        }
        var ihl := LowNibble(ip4.value[0]) * 4;
        if HighNibble(ip4.value[0]) != 4 || ihl < 20 || ihl > 60 {
          Count(BadIPv4);
          return;
        }
        var frag := Be16(ip4.value[6], ip4.value[7]);
        FragmentWord(ip4.value[6], ip4.value[7]);
        if frag % 0x4000 != 0 {
          Count(IPv4Fragment);
          return;
        }
        if ip4.value[9] == PROTO_TCP {
          DetectDnsTcp(skb, off + ihl);
          return;
        }
        if ip4.value[9] != PROTO_UDP {
          return;
        }
        off := off + ihl;
        family := AF_INET;
      } else if HighNibble(first.value[0]) == 6 {
        var ip6 := Load(skb, off, 40);
        if ip6.None? || HighNibble(ip6.value[0]) != 6 {
          Count(IPv6Ext);
          return;
        }
        if ip6.value[6] == PROTO_TCP {
          DetectDnsTcp(skb, off + 40);
          return;
        }
        if ip6.value[6] != PROTO_UDP {
          Count(IPv6Ext);
          return;
        }
        off := off + 40;
        family := AF_INET6;
      } else {
        Count(BadL3);
        return;
      }
      assert Examine(skb) == UdpVerdict(skb, family, off);
      DnsUdp(skb, off, family, direction, ifindex, now, reserved);
    }

    /** The rest of the probe, from the UDP header on. */
    method DnsUdp(skb: seq<uint8>, off: nat, family: nat, direction: uint8, ifindex: uint32, now: uint64, reserved: Option<seq<uint8>>)
      requires reserved.Some? ==> |reserved.value| == DNS_CAPTURE_MAX
      modifies this
      ensures var effect := EffectOf(UdpVerdict(skb, family, off), skb, ifindex, now, direction, reserved);
              counters == Bumped(old(counters), effect.counts) && events == old(events) + effect.events
    {
      hide Be16;
      var udp := Load(skb, off, 8);
      if udp.None? {
        Count(BadUDP);
        return;
      }
      var sport, dport := Be16(udp.value[0], udp.value[1]), Be16(udp.value[2], udp.value[3]);
      var ulen := Be16(udp.value[4], udp.value[5]);
      if sport != DNS_PORT && dport != DNS_PORT {
        return;
      }
      if ulen < 8 {
        Count(BadUDP);
        return;
      }
      var dnslen := ulen - 8;
      if dnslen < DNS_MIN_LEN {
        Count(DnsShort);
        return;
      }
      ghost var v := UdpVerdict(skb, family, off);
      var cap := if dnslen > DNS_CAPTURE_MAX then DNS_CAPTURE_MAX else dnslen;
      if dnslen > DNS_CAPTURE_MAX {
        Count(DnsTruncated);
      }
      assert counters == Bumped(old(counters), v.counts);
      assert forall c :: (v.counts + [c])[..|v.counts|] == v.counts;
      if reserved.None? {
        Count(RingbufFail);
        return;
      }
      var message := Load(skb, off + 8, cap);
      if message.None? {
        Count(BadUDP);
        return;
      }
      events := events + [DnsEvent(ifindex, now, direction, family, dnslen, cap, message.value + reserved.value[cap..])];
    }
  }

  // ----- every DNS datagram is found, and nothing else is -----

  lemma HeaderExamined(h: IpHeader, rest: seq<uint8>)
    requires ValidHeader(h)
    ensures Examine(EncodeHeader(h) + rest) == UdpVerdict(EncodeHeader(h) + rest, FamilyOf(h), |EncodeHeader(h)|)
  {
    var skb := EncodeHeader(h) + rest;
    match h
    case V4(ihl, _, _, _, flags, _, _, _, _) =>
      assert skb[0] == 0x40 + ihl && skb[6] == flags && skb[7] == 0 && skb[9] == PROTO_UDP;
    case V6(class0, _, _, _, _, _) =>
      assert skb[0] == 0x60 + class0 && skb[6] == PROTO_UDP;
  }

  /**
    Extraction: from the encoding of any datagram on port 53 that carries at least a DNS header, and
    whatever follows it in the packet, the probe locates exactly the payload.
   */
  lemma DatagramIsLocated(d: Datagram, trailer: seq<uint8>)
    requires ValidDatagram(d) && (d.source == 53 || d.destination == 53) && |d.payload| >= 12
    ensures var skb := Encode(d) + trailer;
            var v := Examine(skb);
            && v.dns == Some(Location(FamilyOf(d.header), |EncodeHeader(d.header)| + 8, |d.payload|))
            && skb[v.dns.value.off..v.dns.value.off + v.dns.value.len] == d.payload
            && v.counts == if |d.payload| > 1232 then [DnsTruncated] else []
  {
    hide EncodeUdp, EncodeHeader, Examine, UdpVerdict;
    var head, udp := EncodeHeader(d.header), EncodeUdp(d.source, d.destination, d.checksum, |d.payload| + 8);
    Associate(head, udp, d.payload, trailer);
    HeaderExamined(d.header, udp + d.payload + trailer);
    Slice(head, udp, d.payload + trailer);
    UdpExamined(Encode(d) + trailer, |head|, d, FamilyOf(d.header));
    Slice(head + udp, d.payload, trailer);
  }

  lemma Associate(a: seq<uint8>, b: seq<uint8>, c: seq<uint8>, d: seq<uint8>)
    ensures a + (b + c + d) == a + b + (c + d) == a + b + c + d
  {
  }

  lemma Cut(s: seq<uint8>, i: nat, j: nat, k: nat)
    requires i <= j <= k <= |s|
    ensures s == s[..i] + s[i..j] + s[j..k] + s[k..]
  {
  }

  lemma Slice(a: seq<uint8>, b: seq<uint8>, c: seq<uint8>)
    ensures (a + b + c)[|a|..|a| + |b|] == b
  {
  }

  lemma UdpExamined(skb: seq<uint8>, off: nat, d: Datagram, family: nat)
    requires ValidDatagram(d)
    requires Load(skb, off, 8) == Some(EncodeUdp(d.source, d.destination, d.checksum, |d.payload| + 8))
    ensures UdpVerdict(skb, family, off)
            == if d.source != 53 && d.destination != 53 then IGNORED
               else if |d.payload| < 12 then Counted(DnsShort)
               else Verdict(if |d.payload| > 1232 then [DnsTruncated] else [], Some(Location(family, off + 8, |d.payload|)))
  {
    hide Be16;
    Be16OfBytes(d.source);
    Be16OfBytes(d.destination);
    Be16OfBytes(|d.payload| + 8);
    var udp := skb[off..off + 8];
    assert udp[0] == d.source / 256 && udp[1] == d.source % 256 && udp[2] == d.destination / 256 && udp[3] == d.destination % 256;
    assert udp[4] == (|d.payload| + 8) / 256 && udp[5] == (|d.payload| + 8) % 256;
  }

  /** Packets the probe reports, as records: whole when short enough, a prefix with the true length otherwise. */
  lemma DatagramIsCaptured(d: Datagram, trailer: seq<uint8>, ifindex: uint32, now: uint64, direction: uint8, stale: seq<uint8>)
    requires ValidDatagram(d) && (d.source == 53 || d.destination == 53) && |d.payload| >= 12
    requires |stale| == 1232
    ensures var skb := Encode(d) + trailer;
            var effect := EffectOf(Examine(skb), skb, ifindex, now, direction, Some(stale));
            && effect.counts == (if |d.payload| > 1232 then [DnsTruncated] else [])
            && |effect.events| == 1
            && var e := effect.events[0];
               && e.ifindex == ifindex && e.timestampNS == now && e.direction == direction && e.family == FamilyOf(d.header)
               && e.messageLen == |d.payload| && e.capturedLen == Min(|d.payload|, 1232)
               && e.payload == d.payload[..e.capturedLen] + stale[e.capturedLen..]
  {
    DatagramIsLocated(d, trailer);
    var skb := Encode(d) + trailer;
    var at := Examine(skb).dns.value;
    var cap := Min(at.len, 1232);
    assert skb[at.off..at.off + at.len][..cap] == skb[at.off..at.off + cap];
  }

  /** A datagram on another port is ignored; one on port 53 too short for a DNS header is only counted. */
  lemma OtherDatagramsAreNotCaptured(d: Datagram, trailer: seq<uint8>)
    requires ValidDatagram(d)
    ensures var v := Examine(Encode(d) + trailer);
            && (d.source != 53 && d.destination != 53 ==> v == IGNORED)
            && ((d.source == 53 || d.destination == 53) && |d.payload| < 12 ==> v == Counted(DnsShort))
  {
    hide EncodeUdp, EncodeHeader, Examine, UdpVerdict;
    var head, udp := EncodeHeader(d.header), EncodeUdp(d.source, d.destination, d.checksum, |d.payload| + 8);
    Associate(head, udp, d.payload, trailer);
    HeaderExamined(d.header, udp + d.payload + trailer);
    Slice(head, udp, d.payload + trailer);
    UdpExamined(Encode(d) + trailer, |head|, d, FamilyOf(d.header));
  }

  // ----- the counters -----

  function Word(skb: seq<uint8>, at: nat): uint16
    requires at + 2 <= |skb|
  {
    0x100 * (skb[at] as int) + skb[at + 1] as int
  }

  /** An IPv4 header of sane length, and whether the packet is a fragment. */
  predicate HasV4(skb: seq<uint8>) {
    |skb| >= 20 && skb[0] / 16 == 4 && skb[0] % 16 >= 5
  }

  predicate IsFragment(skb: seq<uint8>)
    requires HasV4(skb)
  {
    Word(skb, 6) % 0x4000 != 0
  }

  predicate HasV6(skb: seq<uint8>) {
    |skb| >= 40 && skb[0] / 16 == 6
  }

  predicate HasTransport(skb: seq<uint8>, protocol: uint8) {
    (HasV4(skb) && !IsFragment(skb) && skb[9] == protocol) || (HasV6(skb) && skb[6] == protocol)
  }

  /** Where the transport header starts. */
  function Start(skb: seq<uint8>): nat
    requires HasV4(skb) || HasV6(skb)
  {
    if HasV4(skb) then skb[0] % 16 * 4 else 40
  }

  predicate PortsAt(skb: seq<uint8>, at: nat)
    requires at + 4 <= |skb|
  {
    Word(skb, at) == 53 || Word(skb, at + 2) == 53
  }

  /** A whole UDP header with one port 53. */
  predicate HasDnsUdp(skb: seq<uint8>) {
    HasTransport(skb, 17) && Start(skb) + 8 <= |skb| && PortsAt(skb, Start(skb))
  }

  /** The message length the UDP header announces. */
  function Announced(skb: seq<uint8>): int
    requires HasDnsUdp(skb)
  {
    Word(skb, Start(skb) + 4) - 8
  }

  /** A message is announced; the part of it to be captured lies in the packet. */
  predicate HasMessage(skb: seq<uint8>) {
    HasDnsUdp(skb) && Announced(skb) >= 12
  }

  predicate HasCapture(skb: seq<uint8>)
    requires HasMessage(skb)
  {
    Start(skb) + 8 + (if Announced(skb) > 1232 then 1232 else Announced(skb)) <= |skb|
  }

  /** When a packet bumps a counter; full says that the ring buffer has no room. */
  predicate Deserves(skb: seq<uint8>, full: bool, c: Counter) {
    match c
    case BadL3 => skb == [] || (skb[0] / 16 != 4 && skb[0] / 16 != 6)
    case BadIPv4 => skb != [] && skb[0] / 16 == 4 && !HasV4(skb)
    case IPv4Fragment => HasV4(skb) && IsFragment(skb)
    case IPv6Ext => skb != [] && skb[0] / 16 == 6 && (|skb| < 40 || (skb[6] != 6 && skb[6] != 17))
    case DnsTcpSeen => HasTransport(skb, 6) && Start(skb) + 4 <= |skb| && PortsAt(skb, Start(skb))
    case BadUDP =>
      || (HasTransport(skb, 17) && Start(skb) + 8 > |skb|)
      || (HasDnsUdp(skb) && Announced(skb) < 0)
      || (!full && HasMessage(skb) && !HasCapture(skb))
    case DnsShort => HasDnsUdp(skb) && 0 <= Announced(skb) < 12
    case DnsTruncated => HasDnsUdp(skb) && Announced(skb) > 1232
    case RingbufFail => full && HasMessage(skb)
  }

  predicate Once(counts: seq<Counter>) {
    forall i, j :: 0 <= i < j < |counts| ==> counts[i] != counts[j]
  }

  /** The verdict, sorted by what the packet has. */
  lemma ExaminedV4(skb: seq<uint8>)
    requires HasV4(skb)
    ensures Examine(skb) == if IsFragment(skb) then Verdict([IPv4Fragment], None)
                            else if skb[9] == 6 then TcpVerdict(skb, Start(skb))
                            else if skb[9] == 17 then UdpVerdict(skb, 2, Start(skb))
                            else Verdict([], None)
  {
    hide UdpVerdict, TcpVerdict;
    FragmentWord(skb[6], skb[7]);
  }

  lemma ExaminedOther(skb: seq<uint8>)
    requires !HasV4(skb)
    ensures Examine(skb) == if skb == [] then Verdict([BadL3], None)
                            else if skb[0] / 16 == 4 then Verdict([BadIPv4], None)
                            else if skb[0] / 16 != 6 then Verdict([BadL3], None)
                            else if |skb| < 40 then Verdict([IPv6Ext], None)
                            else if skb[6] == 6 then TcpVerdict(skb, 40)
                            else if skb[6] == 17 then UdpVerdict(skb, 10, 40)
                            else Verdict([IPv6Ext], None)
  {
    hide UdpVerdict, TcpVerdict;
  }

  /** The verdict on a packet with UDP, with TCP, and with neither. */
  lemma ExaminedTransport(skb: seq<uint8>)
    ensures HasTransport(skb, 6) ==> Examine(skb) == TcpVerdict(skb, Start(skb))
    ensures HasTransport(skb, 17) ==> Examine(skb) == UdpVerdict(skb, if HasV4(skb) then 2 else 10, Start(skb))
    ensures !HasTransport(skb, 6) && !HasTransport(skb, 17) ==>
              && Examine(skb).dns == None && |Examine(skb).counts| <= 1
              && forall c :: c in Examine(skb).counts <==> c != DnsTcpSeen && c != BadUDP && c != DnsShort && Deserves(skb, false, c)
  {
    if HasV4(skb) {
      ExaminedV4(skb);
    } else {
      ExaminedOther(skb);
    }
    hide Examine, UdpVerdict, TcpVerdict, Word;
  }

  lemma TcpExamined(skb: seq<uint8>, at: nat)
    ensures TcpVerdict(skb, at) == Verdict(if at + 4 <= |skb| && PortsAt(skb, at) then [DnsTcpSeen] else [], None)
  {
    if at + 4 <= |skb| {
      var ports := skb[at..at + 4];
      assert Be16(ports[0], ports[1]) == Word(skb, at) && Be16(ports[2], ports[3]) == Word(skb, at + 2);
    }
  }

  lemma UdpVerdictIs(skb: seq<uint8>, family: nat, at: nat)
    ensures UdpVerdict(skb, family, at) ==
            if at + 8 > |skb| then Verdict([BadUDP], None)
            else if !PortsAt(skb, at) then Verdict([], None)
            else
              var message := Word(skb, at + 4) - 8;
              if message < 0 then Verdict([BadUDP], None)
              else if message < 12 then Verdict([DnsShort], None)
              else Verdict(if message > 1232 then [DnsTruncated] else [], Some(Location(family, at + 8, message)))
  {
    if at + 8 <= |skb| {
      var udp := skb[at..at + 8];
      assert Be16(udp[0], udp[1]) == Word(skb, at) && Be16(udp[2], udp[3]) == Word(skb, at + 2) && Be16(udp[4], udp[5]) == Word(skb, at + 4);
    }
  }

  /** Every packet bumps exactly the counters it deserves, each once, and is reported iff its message can be captured. */
  lemma CountersAreDeserved(skb: seq<uint8>, ifindex: uint32, now: uint64, direction: uint8, reserved: Option<seq<uint8>>, c: Counter)
    requires reserved.Some? ==> |reserved.value| == 1232
    ensures var effect := EffectOf(Examine(skb), skb, ifindex, now, direction, reserved);
            && (c in effect.counts <==> Deserves(skb, reserved.None?, c)) && Once(effect.counts)
            && |effect.events| == (if reserved.Some? && HasMessage(skb) && HasCapture(skb) then 1 else 0)
  {
    if HasTransport(skb, 17) {
      UdpDeserves(skb, ifindex, now, direction, reserved, c);
    } else if HasTransport(skb, 6) {
      ExaminedTransport(skb);
      TcpExamined(skb, Start(skb));
      hide Examine, UdpVerdict, TcpVerdict, EventAt;
    } else {
      ExaminedTransport(skb);
      hide Examine, UdpVerdict, TcpVerdict, EventAt;
    }
  }

  /** Bumping counters, each once, adds one to them and leaves the others. */
  lemma {:induction false} BumpedIs(counters: map<Counter, uint64>, cs: seq<Counter>, c: Counter)
    requires Once(cs) && forall d: Counter :: d in counters
    ensures forall d: Counter :: d in Probe.Bumped(counters, cs)
    ensures Probe.Bumped(counters, cs)[c] == (counters[c] as int + if c in cs then 1 else 0) % 0x1_0000_0000_0000_0000
  {
    if cs != [] {
      var init, last := cs[..|cs| - 1], cs[|cs| - 1];
      assert cs == init + [last];
      BumpedIs(counters, init, c);
    }
  }

  lemma UdpDeserves(skb: seq<uint8>, ifindex: uint32, now: uint64, direction: uint8, reserved: Option<seq<uint8>>, c: Counter)
    requires (reserved.Some? ==> |reserved.value| == 1232) && HasTransport(skb, 17)
    ensures var effect := EffectOf(Examine(skb), skb, ifindex, now, direction, reserved);
            && (c in effect.counts <==> Deserves(skb, reserved.None?, c)) && Once(effect.counts)
            && |effect.events| == (if reserved.Some? && HasMessage(skb) && HasCapture(skb) then 1 else 0)
  {
    UdpOnly(skb, reserved.None?, c);
    ExaminedTransport(skb);
    UdpVerdictIs(skb, if HasV4(skb) then 2 else 10, Start(skb));
    hide Examine, UdpVerdict, TcpVerdict, EventAt, Word, Start, HasV4, HasV6, HasTransport, IsFragment, PortsAt, Deserves;
  }

  /** Behind a UDP header only the counters of messages are deserved. */
  lemma UdpOnly(skb: seq<uint8>, full: bool, c: Counter)
    requires HasTransport(skb, 17)
    ensures HasDnsUdp(skb) <==> Start(skb) + 8 <= |skb| && PortsAt(skb, Start(skb))
    ensures Deserves(skb, full, c) <==>
            match c
            case BadUDP => Start(skb) + 8 > |skb| || (HasDnsUdp(skb) && Announced(skb) < 0) || (!full && HasMessage(skb) && !HasCapture(skb))
            case DnsShort => HasDnsUdp(skb) && 0 <= Announced(skb) < 12
            case DnsTruncated => HasDnsUdp(skb) && Announced(skb) > 1232
            case RingbufFail => full && HasMessage(skb)
            case _ => false
  {
  }

  /** Reading an IPv4 header back out of a packet the probe accepts. */
  function HeaderIn(skb: seq<uint8>): IpHeader
    requires Examine(skb).dns.Some?
  {
    if HighNibble(skb[0]) == 4 then
      var size := LowNibble(skb[0]) * 4;
      V4(LowNibble(skb[0]), skb[1], Be16(skb[2], skb[3]), Be16(skb[4], skb[5]), skb[6], skb[8], Be16(skb[10], skb[11]),
         skb[12..20], skb[20..size])
    else V6(LowNibble(skb[0]), skb[1], Be16(skb[2], skb[3]), Be16(skb[4], skb[5]), skb[7], skb[8..40])
  }

  lemma BytesOfBe16(hi: uint8, lo: uint8)
    ensures Be16(hi, lo) / 256 == hi && Be16(hi, lo) % 256 == lo
  {
  }

  lemma HeaderReadBack(skb: seq<uint8>)
    requires Examine(skb).dns.Some?
    ensures var h := HeaderIn(skb);
            && ValidHeader(h) && |EncodeHeader(h)| + 8 == Examine(skb).dns.value.off <= |skb|
            && skb[..|EncodeHeader(h)|] == EncodeHeader(h) && FamilyOf(h) == Examine(skb).dns.value.family
            && Examine(skb) == UdpVerdict(skb, FamilyOf(h), |EncodeHeader(h)|)
  {
    BytesOfBe16(skb[2], skb[3]);
    BytesOfBe16(skb[4], skb[5]);
    BytesOfBe16(skb[10], skb[11]);
  }

  /**
    Converse: whatever packet the probe locates a message in, the packet is the encoding of a datagram on
    port 53 with a payload of that length and a trailer, or, if the length runs past its end, the beginning
    of such an encoding.
   */
  lemma LocatedIsDatagram(skb: seq<uint8>) returns (d: Datagram, missing: seq<uint8>, trailer: seq<uint8>)
    requires Examine(skb).dns.Some?
    ensures ValidDatagram(d) && skb + missing == Encode(d) + trailer
    ensures d.source == 53 || d.destination == 53
    ensures var at := Examine(skb).dns.value;
            && |d.payload| == at.len >= 12
            && if at.off + at.len <= |skb| then missing == [] && d.payload == skb[at.off..at.off + at.len] else missing != [] && trailer == []
  {
    hide HeaderIn, Examine, UdpVerdict, ValidHeader, EncodeHeader, EncodeUdp, Be16;
    HeaderReadBack(skb);
    var at := Examine(skb).dns.value;
    var o, end := at.off - 8, at.off + at.len;
    missing := seq(Max(0, end - |skb|), _ => 0);
    var full := skb + missing;
    var udp, payload := skb[o..at.off], full[at.off..end];
    PortsReadBack(skb, at.family, o);
    d := Datagram(HeaderIn(skb), Be16(udp[0], udp[1]), Be16(udp[2], udp[3]), Be16(udp[6], udp[7]), payload);
    trailer := full[end..];
    assert Examine(skb) == UdpVerdict(skb, at.family, o);
    Cut(full, o, at.off, end);
    assert full[..o] == skb[..o] && full[o..at.off] == udp;
  }

  lemma PortsReadBack(skb: seq<uint8>, family: nat, off: nat)
    requires UdpVerdict(skb, family, off).dns.Some?
    ensures off + 8 <= |skb|
    ensures var udp := skb[off..off + 8];
            var source, destination := Be16(udp[0], udp[1]), Be16(udp[2], udp[3]);
            && (source == 53 || destination == 53)
            && 12 <= UdpVerdict(skb, family, off).dns.value.len < 0x1_0000 - 8
            && udp == EncodeUdp(source, destination, Be16(udp[6], udp[7]), UdpVerdict(skb, family, off).dns.value.len + 8)
  {
    hide Be16;
    var udp := skb[off..off + 8];
    BytesOfBe16(udp[0], udp[1]);
    BytesOfBe16(udp[2], udp[3]);
    BytesOfBe16(udp[4], udp[5]);
    BytesOfBe16(udp[6], udp[7]);
  }
}
