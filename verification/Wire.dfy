/**
 The same frames octet by octet, as RFC 826, RFC 791, RFC 792 and IEEE 802.1Q lay them out: exactly
 what a host sends, and exactly which frames it acts on and how.
 */
module Wire {
  import opened Bytes
  import opened Options
  import Decimal
  import opened Checksum
  import opened Frames
  import opened HostModel

  /** The tag of a VLAN, which stands in front of the protocol; identifier 4095 means none. */
  function Tag(vlan: u16): seq<byte> {
    if vlan % 4096 == 4095 then [] else [0x81, 0x00, vlan % 4096 / 256, vlan % 256]
  }

  function ArpOctets(op: byte, sha: Mac, spa: Ip, tha: Mac, tpa: Ip): (b: seq<byte>)
    ensures |b| == 28
  {
    [0, 1, 0x08, 0x00, 6, 4, 0, op] + sha + spa + tha + tpa
  }

  /** An ARP request of host `h` for `target`, to everyone. */
  function RequestOctets(h: Host, target: Ip): seq<byte> {
    [255, 255, 255, 255, 255, 255] + h.mac + Tag(h.ourVlan) + [0x08, 0x06]
    + ArpOctets(1, h.mac, h.ip, [0, 0, 0, 0, 0, 0], target)
  }

  lemma HeaderOctets(dest: Mac, src: Mac, vlan: u16, prot: u16)
    ensures EtherHeader(dest, src, vlan, prot) == dest + src + Tag(vlan) + [prot / 256, prot % 256]
  {
  }

  lemma ArpBodyOctets(a: Arp)
    requires a.op < 256
    ensures ArpBody(a) == ArpOctets(a.op, a.sha, a.spa, a.tha, a.tpa)
  {
  }

  lemma RequestFrameOctets(h: Host)
    ensures RequestFrame(h) == RequestOctets(h, h.waitReplyIp)
  {
    HeaderOctets(BROADCAST_MAC, h.mac, h.ourVlan, PROT_ARP);
    ArpBodyOctets(Arp(ARPOP_REQUEST, h.mac, h.ip, NULL_MAC, h.waitReplyIp));
  }

  /** Whom `h` has to ask for the way to `dst`. */
  function Hop(h: Host, dst: Ip): Ip {
    if GoesByGateway(h, dst) then h.gateway else dst
  }

  lemma HopAsked(h: Host)
    ensures RequestFrame(ArpRequest(h)) == RequestOctets(h, Hop(h, h.waitPacketIp))
  {
    hide GoesByGateway;
    RequestFrameOctets(ArpRequest(h));
    HopIsByBits(h, h.waitPacketIp);
  }

  /** A ping asks for its target, or for the gateway if the way leads over it. */
  lemma PingAsks(h: Host, now: nat)
    ensures RequestFrame(PingSend(h, now)) == RequestOctets(h, Hop(h, h.pingIp))
    ensures var g := PingSend(h, now); g.waitReplyIp == Hop(h, h.pingIp) && g.waitPacketIp == h.pingIp && g.waitTry == 1 && g.waitStart == now
  {
    hide GoesByGateway;
    RequestFrameOctets(PingSend(h, now));
    HopIsByBits(h, h.pingIp);
  }

  /** For example 10.0.0.1 with netmask 255.255.255.0 asks 10.0.0.254 for the way to 8.8.8.8. */
  lemma ForeignTarget(h: Host, now: nat)
    requires h.ip == [10, 0, 0, 1] && h.netmask == [255, 255, 255, 0] && h.gateway == [10, 0, 0, 254]
    requires h.pingIp == [8, 8, 8, 8]
    ensures RequestFrame(PingSend(h, now)) == RequestOctets(h, [10, 0, 0, 254])
  {
    assert Bit(255, 1) == 1 && Bit(8, 1) == 0 && Bit(10, 1) == 1;
    assert BitDiffers(h.netmask[0], h.pingIp[0], h.ip[0], 8);
    PingAsks(h, now);
  }

  /** Every repetition, after more than five seconds and up to the fourth time, asks the same; then the host gives up. */
  lemma TimeoutAsks(h: Host, now: nat)
    requires Ready(h) && h.waitPacketIp != NO_IP && h.waitStart <= now
    ensures var (g, out) := ArpTimeout(h, now);
         && out == (if now - h.waitStart > 5000 && h.waitTry < 4 then [RequestOctets(h, Hop(h, h.waitPacketIp))] else [])
         && g.state == (if now - h.waitStart > 5000 && h.waitTry >= 4 then Fail else h.state)
         && g.waitPacketIp == h.waitPacketIp && g.packet == h.packet
  {
    hide GoesByGateway;
    RequestFrameOctets(ArpTimeout(h, now).0);
    HopIsByBits(h, h.waitPacketIp);
  }

  lemma PingHeaderOctets(id: u16, src: Ip, dst: Ip) returns (c: seq<byte>)
    ensures |c| == 2
    ensures var ip := [0x45, 0, 0, 28, id / 256, id % 256, 0x40, 0, 255, 1] + c + src + dst;
         Sealed(PingIpHeader(id, src, dst), 10) == ip && OnesSum(ip) == 0xffff
  {
    var bare := PingIpHeader(id, src, dst);
    assert bare[10] == bare[11] == 0;
    SealedIsOk(bare, 10);
    c := LeBytes(Cksum(bare));
    hide OnesSum;
  }

  lemma PingIcmpOctets(seqno: u16) returns (k: seq<byte>)
    ensures |k| == 2
    ensures var icmp := [8, 0] + k + [0, 0, seqno / 256, seqno % 256];
         Sealed(PingIcmp(seqno), 2) == icmp && OnesSum(icmp) == 0xffff
  {
    var echo := PingIcmp(seqno);
    assert echo[2] == echo[3] == 0;
    SealedIsOk(echo, 2);
    k := LeBytes(Cksum(echo));
    hide OnesSum;
  }

  /** An echo request; its two checksums make the words of either part add up to 0xffff. */
  lemma PingOctets(h: Host, dest: Mac, id: u16, seqno: u16) returns (c: seq<byte>, k: seq<byte>)
    ensures |c| == |k| == 2
    ensures var ip := [0x45, 0, 0, 28, id / 256, id % 256, 0x40, 0, 255, 1] + c + h.ip + h.pingIp;
            var icmp := [8, 0] + k + [0, 0, seqno / 256, seqno % 256];
         && PingFrame(h, dest, id, seqno) == dest + h.mac + Tag(h.ourVlan) + [0x08, 0x00] + (ip + icmp)
         && OnesSum(ip) == OnesSum(icmp) == 0xffff
  {
    hide OnesSum, Sealed, PingIpHeader, PingIcmp, Tag;
    c := PingHeaderOctets(id, h.ip, h.pingIp);
    k := PingIcmpOctets(seqno);
    HeaderOctets(dest, h.mac, h.ourVlan, PROT_IP);
  }

  /** What waits for an answer is that echo request, to nobody yet; identifiers count on and wrap around. */
  lemma PingWaits(h: Host, now: nat)
    ensures var g := PingSend(h, now);
         && g.packet == PingFrame(h, [0, 0, 0, 0, 0, 0], h.ipId, h.pingSeq)
         && g.ipId == (h.ipId + 1) % 0x1_0000 && g.pingSeq == (h.pingSeq + 1) % 0x1_0000
  {
  }

  // Reception

  /** How many octets a frame has in front of its packet: 802.2 with SNAP, a tag, or neither. */
  function LinkSize(f: seq<byte>): (n: nat)
    requires |f| >= 14
  {
    if f[12] as int * 256 + f[13] as int < 1514 then 22 else if f[12] == 0x81 && f[13] == 0x00 then 18 else 14
  }

  /** A frame without a tag belongs to the native VLAN. A host in no VLAN hears no tagged frame. */
  predicate Listens(f: seq<byte>, our: u16, native: u16)
    requires |f| >= 14 && |f| >= LinkSize(f)
  {
    var id := if LinkSize(f) == 18 then f[14] as int % 16 * 256 + f[15] as int else 4095;
    if our % 4096 == 4095 then LinkSize(f) != 18
    else our % 4096 == if id == 4095 then native % 4096 else id
  }

  predicate Arrives(h: Host, f: seq<byte>, hi: byte, lo: byte) {
    && |f| >= 14 && |f| >= LinkSize(f) && Listens(f, h.ourVlan, h.nativeVlan)
    && f[LinkSize(f) - 2] == hi && f[LinkSize(f) - 1] == lo
  }

  /** The packet behind the link header. */
  function Packet(f: seq<byte>): seq<byte>
    requires |f| >= 14 && |f| >= LinkSize(f)
  {
    f[LinkSize(f)..]
  }

  /** An ARP packet over Ethernet and IP about the host's own address. */
  predicate IsArpFor(h: Host, f: seq<byte>, op: byte) {
    && Arrives(h, f, 0x08, 0x06) && |Packet(f)| >= 28 && Packet(f)[..8] == [0, 1, 0x08, 0x00, 6, 4, 0, op]
    && h.ip != [0, 0, 0, 0] && Packet(f)[24..28] == h.ip
  }

  /** An ICMP packet of the given type, whole, not a fragment, without IP options, for the host or for all. */
  predicate IsIcmpFor(h: Host, f: seq<byte>, kind: byte) {
    && Arrives(h, f, 0x08, 0x00) && |Packet(f)| >= 28
    && var b := Packet(f);
    && |b| >= b[2] as int * 256 + b[3] as int
    && b[0] / 16 == 4 && b[0] % 16 <= 5
    && (OnesSum(b[..20]) == 0xffff || OnesSum(b[..20]) == 0xfffe)
    && (h.ip == [0, 0, 0, 0] || b[16..20] == h.ip || b[16..20] == [255, 255, 255, 255])
    && b[6] % 64 == 0 && b[7] == 0
    && b[9] == 1 && b[20] == kind
  }

  /** An echo request that claims to be shorter than its own IP header. */
  predicate IsTruncatedPing(f: seq<byte>) {
    && |f| >= 14 && |f| >= LinkSize(f) && f[LinkSize(f) - 2] == 0x08 && f[LinkSize(f) - 1] == 0x00
    && |Packet(f)| >= 28 && Packet(f)[9] == 1 && Packet(f)[20] == 8 && Packet(f)[2] == 0 && Packet(f)[3] < 20
  }

  lemma LinkSizeIs(f: seq<byte>)
    requires |f| >= 14
    ensures FramingOf(f).Size() == LinkSize(f) && (FramingOf(f).Tagged? <==> LinkSize(f) == 18)
  {
  }

  /** A protocol number of two octets. */
  lemma ProtocolOctets(hi: byte, lo: byte)
    ensures 0x100 * (hi as int) + lo as int == PROT_ARP <==> hi == 0x08 && lo == 0x06
    ensures 0x100 * (hi as int) + lo as int == PROT_IP <==> hi == 0x08 && lo == 0x00
  {
  }

  lemma TagOctets(hi: byte, lo: byte)
    ensures (0x100 * (hi as int) + lo as int) % 0x1000 == hi % 16 * 256 + lo
  {
    Decimal.Unique(0x100 * (hi as int) + lo as int, 0x1000, hi / 16, hi % 16 * 256 + lo);
  }

  lemma VlanIds(vlan: u16)
    ensures VlanId(vlan) == vlan % 4096
  {
  }

  lemma VlanOctets(f: seq<byte>, our: u16, native: u16)
    requires HasHeader(f) && |f| >= LinkSize(f)
    ensures VlanAccepts(f, our, native) <==> Listens(f, our, native)
  {
    LinkSizeIs(f);
    VlanIds(our);
    VlanIds(native);
    if |f| >= 16 {
      TagOctets(f[14], f[15]);
    }
    hide FramingOf, LinkSize, VlanId;
  }

  lemma FramingOctets(h: Host, f: seq<byte>)
    ensures HasHeader(f) <==> |f| >= 14 && |f| >= LinkSize(f)
    ensures HasHeader(f) ==>
              && FramingOf(f).Size() == LinkSize(f) && Payload(f) == Packet(f)
              && (VlanAccepts(f, h.ourVlan, h.nativeVlan) <==> Listens(f, h.ourVlan, h.nativeVlan))
              && (ProtocolOf(f) == PROT_ARP <==> f[LinkSize(f) - 2] == 0x08 && f[LinkSize(f) - 1] == 0x06)
              && (ProtocolOf(f) == PROT_IP <==> f[LinkSize(f) - 2] == 0x08 && f[LinkSize(f) - 1] == 0x00)
  {
    if |f| >= 14 {
      LinkSizeIs(f);
      hide FramingOf, LinkSize;
      if HasHeader(f) {
        VlanOctets(f, h.ourVlan, h.nativeVlan);
        ProtocolOctets(f[LinkSize(f) - 2], f[LinkSize(f) - 1]);
      }
    }
  }

  lemma SaneOctets(f: seq<byte>)
    ensures Sane(f) <==> !IsTruncatedPing(f)
  {
  }

  /** An echo request among sent frames, and its destination. */
  lemma EchoRequestOctets(f: seq<byte>)
    ensures IsEchoRequest(f) <==>
              && |f| >= 14 && |f| >= LinkSize(f) + 21 && f[LinkSize(f) - 2] == 0x08 && f[LinkSize(f) - 1] == 0x00
              && f[LinkSize(f) + 9] == 1 && f[LinkSize(f) + 20] == 8
    ensures IsEchoRequest(f) ==> DestinationOf(f) == f[LinkSize(f) + 16..LinkSize(f) + 20]
  {
  }

  lemma ParsedOctets(b: seq<byte>)
    ensures ParseArp(b).Some? <==> |b| >= 28 && b[..6] == [0, 1, 0x08, 0x00, 6, 4]
    ensures ParseArp(b).Some? ==>
              && ParseArp(b).value == Arp(b[6] as int * 256 + b[7] as int, b[8..14], b[14..18], b[18..24], b[24..28])
  {
  }

  /** The answer to `f` begins with its link header turned round. */
  function AnswerLink(h: Host, f: seq<byte>): seq<byte>
    requires |f| >= 14 && |f| >= LinkSize(f)
  {
    f[6..12] + h.mac + f[12..LinkSize(f)]
  }

  /** New addresses in front of a frame that keeps its protocol. */
  lemma Readdressed(f: seq<byte>, addresses: seq<byte>, prot: seq<byte>, n: nat)
    requires |addresses| == 12 && |prot| == 2 && 14 <= n <= |f| && f[n - 2..n] == prot
    ensures Splice(Splice(f, 0, addresses), n - 2, prot)[..n] == addresses + f[12..n]
  {
    var g := Splice(f, 0, addresses);
    assert g[12..] == f[12..];
    assert g[n - 2..n] == g[12..][n - 14..n - 12] == f[12..][n - 14..n - 12] == f[n - 2..n];
    assert Splice(g, n - 2, prot) == g;
    assert g[..n] == addresses + g[12..][..n - 12];
  }

  lemma AnswerHeaderOctets(h: Host, f: seq<byte>, prot: u16)
    requires HasHeader(f) && ProtocolOf(f) == prot && (prot == PROT_ARP || prot == PROT_IP)
    ensures AnswerHeader(h, f, prot) == AnswerLink(h, f)
  {
    AnswerKeepsFraming(f, f[6..12], h.mac, prot);
    LinkSizeIs(f);
    var n := LinkSize(f);
    hide FramingOf, LinkSize, Splice;
    assert UpdateSize(f) == n;
    assert f[n - 2..n] == [f[n - 2], f[n - 1]] == BeBytes(prot);
    Readdressed(f, f[6..12] + h.mac, BeBytes(prot), n);
  }

  /** `e` is the echo reply of `len` octets to the echo request `b`. */
  predicate IsEchoOf(e: seq<byte>, b: seq<byte>, len: nat, ip: Ip)
    requires 28 <= |b| && 20 <= len <= |b|
  {
    && |e| == len && e[..10] == b[..6] + [0, 0] + b[8..10] && e[12..20] == ip + b[12..16] && OnesSum(e[..20]) == 0xffff
    && (forall j {:trigger e[j]} :: 20 <= j < len && j != 22 && j != 23 ==> e[j] == if j == 20 then 0 else b[j])
    && (len >= 24 ==> OnesSum(e[20..]) == 0xffff)
  }

  lemma EchoHeaderOctets(h: seq<byte>, ip: Ip)
    requires |h| == 20
    ensures var s := Sealed(EchoIpHeader(h, ip), 10);
         s[..10] == h[..6] + [0, 0] + h[8..10] && s[12..20] == ip + h[12..16] && OnesSum(s) == 0xffff
  {
    SealedIsOk(EchoIpHeader(h, ip), 10);
    hide OnesSum;
  }

  lemma EchoIcmpOctets(t: seq<byte>, n: nat)
    requires 8 <= |t| && n <= |t|
    ensures var s := EchoIcmp(t, n);
         && (forall j {:trigger s[j]} :: 0 <= j < |t| && j != 2 && j != 3 ==> s[j] == if j == 0 then 0 else t[j])
         && (n >= 4 ==> OnesSum(s[..n]) == 0xffff)
  {
    var z := t[0 := ICMP_ECHO_REPLY][2 := 0][3 := 0];
    var s := EchoIcmp(t, n);
    if n >= 4 {
      SealedIsOk(z[..n], 2);
      assert s[..n] == Sealed(z[..n], 2);
      hide OnesSum;
    }
  }

  lemma CutBehind(s: seq<byte>, t: seq<byte>, len: nat)
    requires |s| <= len <= |s| + |t|
    ensures (s + t)[..len][..|s|] == s && (s + t)[..len][|s|..] == t[..len - |s|]
  {
  }

  lemma EchoOctets(b: seq<byte>, len: nat, ip: Ip)
    requires 28 <= |b| && 20 <= len <= |b|
    ensures IsEchoOf(EchoBody(b, ip, len)[..len], b, len, ip)
  {
    var s, t := Sealed(EchoIpHeader(b[..20], ip), 10), EchoIcmp(b[20..], len - 20);
    var e := EchoBody(b, ip, len)[..len];
    EchoHeaderOctets(b[..20], ip);
    EchoIcmpOctets(b[20..], len - 20);
    hide OnesSum, Sealed, EchoIcmp, EchoIpHeader;
    CutBehind(s, t, len);
    assert e[..10] == s[..10] && e[12..20] == s[12..20];
    assert b[..20][..6] == b[..6] && b[..20][8..10] == b[8..10] && b[..20][12..16] == b[12..16];
    forall j | 20 <= j < len && j != 22 && j != 23
      ensures e[j] == if j == 20 then 0 else b[j]
    {
      assert e[j] == t[j - 20];
    }
  }

  lemma IpAcceptsOctets(h: Host, f: seq<byte>)
    requires HasHeader(f)
    ensures forall kind: byte ::
              IsIcmpFor(h, f, kind) <==>
                VlanAccepts(f, h.ourVlan, h.nativeVlan) && ProtocolOf(f) == PROT_IP && IpAccepts(h, Payload(f))
                && Payload(f)[9] == 1 && Payload(f)[20] == kind
  {
    FramingOctets(h, f);
    var b := Packet(f);
    if |b| >= 28 {
      AcceptedExactly(b[..20]);
      FlagsAndOffset(b[6], b[7]);
      hide OnesSum, Cksum, IpChecksumOk, FramingOf, VlanAccepts, Listens;
    }
  }

  lemma FlagsAndOffset(hi: byte, lo: byte)
    ensures (0x100 * (hi as int) + lo as int) % 0x4000 == 0 <==> hi % 64 == 0 && lo == 0
  {
    Decimal.Unique(0x100 * (hi as int) + lo as int, 0x4000, hi / 64, hi % 64 * 256 + lo);
  }

  /** The four kinds of frames a host acts on. */
  predicate IsAwaitedReply(h: Host, f: seq<byte>) {
    IsArpFor(h, f, 2) && h.waitPacketIp != [0, 0, 0, 0] && Packet(f)[14..18] == h.waitReplyIp
  }

  predicate IsEchoReply(h: Host, f: seq<byte>) {
    IsIcmpFor(h, f, 0) && Packet(f)[12..16] == h.pingIp
  }

  lemma ArpReceivedExactly(h: Host, f: seq<byte>)
    requires Ready(h) && Sane(f) && HasHeader(f) && ProtocolOf(f) == PROT_ARP && VlanAccepts(f, h.ourVlan, h.nativeVlan)
    ensures var r := Receive(h, f);
         if IsArpFor(h, f, 1) then
           r == (h, [AnswerLink(h, f) + ArpOctets(2, h.mac, h.ip, Packet(f)[8..14], Packet(f)[14..18])])
         else if IsAwaitedReply(h, f) then
           r == (h.(packet := [], waitPacketIp := [0, 0, 0, 0]), [Packet(f)[8..14] + h.packet[6..]])
         else r == (h, [])
  {
    FramingOctets(h, f);
    ParsedOctets(Packet(f));
    hide FramingOf, VlanAccepts, Listens, LinkSize, ParseArp, AnswerHeader, ProtocolOf;
    if ParseArp(Payload(f)).Some? {
      var b := Packet(f);
      var a := ParseArp(b).value;
      OpOctets(b, 1);
      OpOctets(b, 2);
      AnswerHeaderOctets(h, f, PROT_ARP);
      ArpBodyOctets(Arp(ARPOP_REPLY, h.mac, h.ip, a.sha, a.spa));
      assert h.waitPacketIp != NO_IP ==> Splice(h.packet, 0, a.sha) == a.sha + h.packet[6..];
    } else {
      NoArp(Packet(f));
    }
  }

  lemma OpOctets(b: seq<byte>, op: byte)
    requires |b| >= 28 && b[..6] == [0, 1, 0x08, 0x00, 6, 4]
    ensures b[..8] == [0, 1, 0x08, 0x00, 6, 4, 0, op] <==> b[6] as int * 256 + b[7] as int == op
  {
    assert b[..8] == b[..6] + [b[6], b[7]];
  }

  lemma NoArp(b: seq<byte>)
    requires !(|b| >= 28 && b[..6] == [0, 1, 0x08, 0x00, 6, 4])
    ensures forall op: byte :: !(|b| >= 28 && b[..8] == [0, 1, 0x08, 0x00, 6, 4, 0, op])
  {
    assert |b| >= 28 ==> b[..6] == b[..8][..6];
  }

  lemma IpReceivedExactly(h: Host, f: seq<byte>)
    requires Ready(h) && Sane(f) && HasHeader(f) && ProtocolOf(f) == PROT_IP && VlanAccepts(f, h.ourVlan, h.nativeVlan)
    ensures var r := Receive(h, f);
         if IsEchoReply(h, f) then r == (h.(state := Success), [])
         else if IsIcmpFor(h, f, 8) then
           && r == (h, r.1) && |r.1| == 1 && AnswerLink(h, f) <= r.1[0]
           && var b := Packet(f); var len := b[2] as int * 256 + b[3] as int;
           20 <= len <= |b| && IsEchoOf(r.1[0][LinkSize(f)..], b, len, h.ip)
         else r == (h, [])
  {
    FramingOctets(h, f);
    IpAcceptsOctets(h, f);
    SaneOctets(f);
    hide FramingOf, VlanAccepts, Listens, LinkSize, AnswerHeader, EchoBody, IsEchoOf, ProtocolOf;
    if IsIcmpFor(h, f, 8) {
      var b := Packet(f);
      var len := b[2] as int * 256 + b[3] as int;
      AnswerHeaderOctets(h, f, PROT_IP);
      EchoOctets(b, len, h.ip);
      var out := AnswerLink(h, f) + EchoBody(b, h.ip, len)[..len];
      assert Receive(h, f) == (h, [out]);
      assert out[LinkSize(f)..] == EchoBody(b, h.ip, len)[..len];
    }
  }

  /**
   What a host does with any frame: it answers ARP requests for its address, sends its waiting packet
   to where the awaited reply says, ends its ping on an echo reply from the pinged address, answers
   echo requests, and ignores everything else.
   */
  lemma ReceivedExactly(h: Host, f: seq<byte>)
    requires Ready(h) && !IsTruncatedPing(f)
    ensures Sane(f)
    ensures var r := Receive(h, f);
         if IsArpFor(h, f, 1) then
           r == (h, [AnswerLink(h, f) + ArpOctets(2, h.mac, h.ip, Packet(f)[8..14], Packet(f)[14..18])])
         else if IsAwaitedReply(h, f) then
           r == (h.(packet := [], waitPacketIp := [0, 0, 0, 0]), [Packet(f)[8..14] + h.packet[6..]])
         else if IsEchoReply(h, f) then r == (h.(state := Success), [])
         else if IsIcmpFor(h, f, 8) then
           && r == (h, r.1) && |r.1| == 1 && AnswerLink(h, f) <= r.1[0]
           && var b := Packet(f); var len := b[2] as int * 256 + b[3] as int;
           20 <= len <= |b| && IsEchoOf(r.1[0][LinkSize(f)..], b, len, h.ip)
         else r == (h, [])
  {
    SaneOctets(f);
    FramingOctets(h, f);
    hide FramingOf, VlanAccepts, Listens, LinkSize, IsEchoOf, ArpReceive, IpReceive;
    if HasHeader(f) && VlanAccepts(f, h.ourVlan, h.nativeVlan) {
      if ProtocolOf(f) == PROT_ARP {
        ArpReceivedExactly(h, f);
      } else if ProtocolOf(f) == PROT_IP {
        IpReceivedExactly(h, f);
      }
    }
  }
}
