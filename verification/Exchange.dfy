/**
 A whole ping between two hosts that run this code: ARP request, ARP reply, echo request, echo reply.
 Every frame passes all the checks of the host it is for, whatever padding it picks up on the way.
 */
module Exchange {
  import opened Bytes
  import opened Checksum
  import opened Frames
  import opened HostModel
  import Wire

  /** Receiving `f` makes `h` into `g` and sends the frames `out`. */
  ghost predicate Hears(h: Host, f: seq<byte>, g: Host, out: seq<seq<byte>>) {
    Ready(h) && Sane(f) && Receive(h, f) == (g, out)
  }

  lemma PingBodyFields(id: u16, src: Ip, dst: Ip, seqno: u16, pad: seq<byte>)
    ensures var b := PingBody(id, src, dst, seqno) + pad;
            && b[0] == 0x45 && Be16(b, 2) == IP_ICMP_HDR_SIZE && Be16(b, 6) == 0x4000 && b[9] == IPPROTO_ICMP
            && b[12..16] == src && b[16..20] == dst && b[20] == ICMP_ECHO_REQUEST
            && IpChecksumOk(b[..IP_HDR_SIZE]) && IpChecksumOk(b[IP_HDR_SIZE..IP_ICMP_HDR_SIZE])
  {
    var h, icmp := PingIpHeader(id, src, dst), PingIcmp(seqno);
    var b := PingBody(id, src, dst, seqno) + pad;
    assert h[10] == h[11] == 0 && icmp[2] == icmp[3] == 0;
    SealedIsOk(h, 10);
    SealedIsOk(icmp, 2);
    assert b[..IP_HDR_SIZE] == Sealed(h, 10);
    assert b[IP_HDR_SIZE..IP_ICMP_HDR_SIZE] == Sealed(icmp, 2);
    assert b[2..4] == BeBytes(IP_ICMP_HDR_SIZE) && b[6..8] == BeBytes(0x4000);
    Be16OfBytes(b, 2, IP_ICMP_HDR_SIZE);
    Be16OfBytes(b, 6, 0x4000);
    assert b[12..16] == src && b[16..20] == dst;
  }

  /**
   The echo reply to any request: addressed back, not a fragment, both checksums valid, and
   identifier, sequence number and data as they came.
   */
  lemma EchoBodyFields(b: seq<byte>, src: Ip, len: nat)
    requires IP_ICMP_HDR_SIZE <= len <= |b|
    ensures var r := EchoBody(b, src, len);
            && r[0] == b[0] && Be16(r, 2) == Be16(b, 2) && Be16(r, 6) == 0 && r[9] == b[9]
            && r[12..16] == src && r[16..20] == b[12..16]
            && r[20] == ICMP_ECHO_REPLY && r[21] == b[21] && r[24..] == b[24..]
            && IpChecksumOk(r[..IP_HDR_SIZE]) && IpChecksumOk(r[IP_HDR_SIZE..len])
  {
    var h := EchoIpHeader(b[..IP_HDR_SIZE], src);
    var n, z := len - IP_HDR_SIZE, b[IP_HDR_SIZE..][0 := ICMP_ECHO_REPLY][2 := 0][3 := 0];
    var r := EchoBody(b, src, len);
    SealedIsOk(h, 10);
    SealedIsOk(z[..n], 2);
    assert r[..IP_HDR_SIZE] == Sealed(h, 10);
    assert r[IP_HDR_SIZE..] == EchoIcmp(b[IP_HDR_SIZE..], n);
    assert r[IP_HDR_SIZE..len] == Sealed(z[..n], 2);
    assert h[12..16] == src && h[16..20] == b[..IP_HDR_SIZE][12..16] == b[12..16];
    assert r[12..16] == h[12..16] && r[16..20] == h[16..20];
    assert r[24..] == b[24..];
  }

  /** `f` is an ARP reply in which `b` tells `a` its MAC address, in a framing `a` listens to. */
  ghost predicate IsReplyTo(f: seq<byte>, b: Host, a: Host) {
    && HasHeader(f) && ProtocolOf(f) == PROT_ARP && VlanAccepts(f, a.ourVlan, a.nativeVlan)
    && Payload(f) == ArpBody(Arp(ARPOP_REPLY, b.mac, b.ip, a.mac, a.ip))
  }

  /** A host answers the ARP request for its own address, so that the asker can read the answer. */
  lemma RequestIsAnswered(a: Host, b: Host, pad: seq<byte>) returns (reply: seq<byte>)
    requires Ready(b) && b.ip != NO_IP && a.waitReplyIp == b.ip && VlanId(a.ourVlan) == VlanId(b.ourVlan)
    ensures Hears(b, RequestFrame(a) + pad, b, [reply]) && IsReplyTo(reply, b, a)
  {
    var q := Arp(ARPOP_REQUEST, a.mac, a.ip, NULL_MAC, a.waitReplyIp);
    var f := RequestFrame(a) + pad;
    assert f == EtherHeader(BROADCAST_MAC, a.mac, a.ourVlan, PROT_ARP) + (ArpBody(q) + pad);
    BuiltIsReceived(BROADCAST_MAC, a.mac, a.ourVlan, PROT_ARP, ArpBody(q) + pad, b.ourVlan, b.nativeVlan);
    BuiltIsReceived(BROADCAST_MAC, a.mac, a.ourVlan, PROT_ARP, ArpBody(q) + pad, a.ourVlan, a.nativeVlan);
    ArpRoundTrip(q, pad);
    AnswerHeaderFields(b, f, PROT_ARP, ArpBody(Arp(ARPOP_REPLY, b.mac, b.ip, a.mac, a.ip)));
    reply := ArpAnswer(b, f, q);
  }

  /** Padding changes neither the framing nor who listens. */
  lemma PaddingKeepsFraming(f: seq<byte>, pad: seq<byte>)
    requires HasHeader(f)
    ensures HasHeader(f + pad) && ProtocolOf(f + pad) == ProtocolOf(f) && Payload(f + pad) == Payload(f) + pad
    ensures forall our, native :: VlanAccepts(f + pad, our, native) <==> VlanAccepts(f, our, native)
  {
    var g := f + pad;
    assert forall k :: 0 <= k < |f| ==> g[k] == f[k];
    assert g[FramingOf(f).Size()..] == Payload(f) + pad;
  }

  /** The reply releases the waiting packet, to the MAC address it carries. */
  lemma ReplyReleasesPacket(a: Host, b: Host, f: seq<byte>, pad: seq<byte>)
    requires Ready(a) && a.ip != NO_IP && a.waitPacketIp != NO_IP && a.waitReplyIp == b.ip && IsReplyTo(f, b, a)
    ensures Hears(a, f + pad, a.(packet := [], waitPacketIp := NO_IP), [Splice(a.packet, 0, b.mac)])
  {
    PaddingKeepsFraming(f, pad);
    ArpRoundTrip(Arp(ARPOP_REPLY, b.mac, b.ip, a.mac, a.ip), pad);
  }

  /** An echo request for a host is answered with its reply to the asker. */
  lemma RequestIsEchoed(a: Host, b: Host, dest: Mac, id: u16, seqno: u16, pad: seq<byte>) returns (r: seq<byte>)
    requires Ready(b) && a.pingIp == b.ip && VlanId(a.ourVlan) == VlanId(b.ourVlan)
    ensures Hears(b, PingFrame(a, dest, id, seqno) + pad, b, [r])
    ensures && HasHeader(r) && ProtocolOf(r) == PROT_IP && VlanAccepts(r, a.ourVlan, a.nativeVlan)
            && Payload(r) == EchoBody(PingBody(id, a.ip, b.ip, seqno), b.ip, IP_ICMP_HDR_SIZE)
            && r[..6] == a.mac && r[6..12] == b.mac
  {
    hide AnswerHeader, EchoBody, PingBody;
    var body := PingBody(id, a.ip, b.ip, seqno) + pad;
    var f := PingFrame(a, dest, id, seqno) + pad;
    assert f == EtherHeader(dest, a.mac, a.ourVlan, PROT_IP) + body;
    BuiltIsReceived(dest, a.mac, a.ourVlan, PROT_IP, body, b.ourVlan, b.nativeVlan);
    BuiltIsReceived(dest, a.mac, a.ourVlan, PROT_IP, body, a.ourVlan, a.nativeVlan);
    PingBodyFields(id, a.ip, b.ip, seqno, pad);
    var echo := EchoBody(PingBody(id, a.ip, b.ip, seqno), b.ip, IP_ICMP_HDR_SIZE);
    EchoIgnoresPadding(PingBody(id, a.ip, b.ip, seqno), b.ip, pad);
    AnswerHeaderFields(b, f, PROT_IP, echo);
    r := EchoAnswer(b, f);
  }

  lemma EchoIgnoresPadding(b: seq<byte>, src: Ip, pad: seq<byte>)
    requires |b| == IP_ICMP_HDR_SIZE
    ensures EchoBody(b + pad, src, IP_ICMP_HDR_SIZE)[..IP_ICMP_HDR_SIZE] == EchoBody(b, src, IP_ICMP_HDR_SIZE)
  {
    var c := b + pad;
    assert c[..IP_HDR_SIZE] == b[..IP_HDR_SIZE] && c[IP_HDR_SIZE..] == b[IP_HDR_SIZE..] + pad;
    var x := b[IP_HDR_SIZE..][0 := ICMP_ECHO_REPLY][2 := 0][3 := 0];
    var y := c[IP_HDR_SIZE..][0 := ICMP_ECHO_REPLY][2 := 0][3 := 0];
    assert y[..8] == x[..8];
  }

  /** The echo reply ends the ping. */
  lemma EchoEndsPing(a: Host, b: Host, id: u16, seqno: u16, r: seq<byte>, pad: seq<byte>)
    requires Ready(a) && a.pingIp == b.ip
    requires HasHeader(r) && ProtocolOf(r) == PROT_IP && VlanAccepts(r, a.ourVlan, a.nativeVlan)
    requires Payload(r) == EchoBody(PingBody(id, a.ip, b.ip, seqno), b.ip, IP_ICMP_HDR_SIZE)
    ensures Hears(a, r + pad, a.(state := Success), [])
  {
    PaddingKeepsFraming(r, pad);
    var ping := PingBody(id, a.ip, b.ip, seqno);
    PingBodyFields(id, a.ip, b.ip, seqno, []);
    assert ping + [] == ping;
    EchoBodyFields(ping, b.ip, IP_ICMP_HDR_SIZE);
    var p, q := Payload(r + pad), Payload(r);
    assert forall k :: 0 <= k < IP_ICMP_HDR_SIZE ==> p[k] == q[k];
    assert p[..IP_HDR_SIZE] == q[..IP_HDR_SIZE] && p[12..16] == q[12..16] && p[16..20] == q[16..20];
  }

  /** An echo reply whose ICMP part is valid and carries identifier and sequence number of the request. */
  ghost predicate Echoes(reply: seq<byte>, request: seq<byte>) {
    && HasHeader(request) && HasHeader(reply)
    && |Payload(request)| == |Payload(reply)| == IP_ICMP_HDR_SIZE
    && Payload(reply)[24..] == Payload(request)[24..] && IpChecksumOk(Payload(reply)[20..])
  }

  lemma EchoIsValid(a: Host, dest: Mac, id: u16, seqno: u16, src: Ip, reply: seq<byte>)
    requires HasHeader(reply) && Payload(reply) == EchoBody(PingBody(id, a.ip, a.pingIp, seqno), src, IP_ICMP_HDR_SIZE)
    ensures Echoes(reply, PingFrame(a, dest, id, seqno))
  {
    BuiltIsReceived(dest, a.mac, a.ourVlan, PROT_IP, PingBody(id, a.ip, a.pingIp, seqno), 0, 0);
    EchoBodyFields(PingBody(id, a.ip, a.pingIp, seqno), src, IP_ICMP_HDR_SIZE);
    assert Payload(reply)[20..] == Payload(reply)[20..IP_ICMP_HDR_SIZE];
  }

  /**
   `a` pings `b`, which it asks for directly: the four frames of the exchange are each answered by
   the next, and the ping succeeds. The echo request goes to the MAC address of `b`.
   */
  lemma PingSucceeds(a: Host, b: Host, now: nat, pad1: seq<byte>, pad2: seq<byte>, pad3: seq<byte>, pad4: seq<byte>)
    returns (f2: seq<byte>, a2: Host, f3: seq<byte>, f4: seq<byte>, a3: Host)
    requires Ready(a) && Ready(b) && a.ip != NO_IP && b.ip != NO_IP
    requires a.pingIp == b.ip && VlanId(a.ourVlan) == VlanId(b.ourVlan)
    requires !GoesByGateway(a, b.ip)
    ensures Hears(b, RequestFrame(PingSend(a, now)) + pad1, b, [f2])
    ensures Hears(PingSend(a, now), f2 + pad2, a2, [f3]) && a2 == PingSend(a, now).(packet := [], waitPacketIp := NO_IP)
    ensures f3 == PingFrame(a, b.mac, a.ipId, a.pingSeq)
    ensures Hears(b, f3 + pad3, b, [f4])
    ensures Echoes(f4, f3)
    ensures Hears(a2, f4 + pad4, a3, []) && a3.state == Success
  {
    Wire.PingAsks(a, now);
    hide GoesByGateway, NextHop;
    var a1 := PingSend(a, now);
    f2 := RequestIsAnswered(a1, b, pad1);
    a2 := a1.(packet := [], waitPacketIp := NO_IP);
    f3 := PingFrame(a, b.mac, a.ipId, a.pingSeq);
    QueuedIsPing(a, now, b.mac);
    ReplyReleasesPacket(a1, b, f2, pad2);
    f4 := RequestIsEchoed(a, b, b.mac, a.ipId, a.pingSeq, pad3);
    EchoIsValid(a, b.mac, a.ipId, a.pingSeq, b.ip, f4);
    EchoEndsPing(a2, b, a.ipId, a.pingSeq, f4, pad4);
    a3 := a2.(state := Success);
  }

  /**
   The way to the target leads over `g`: the gateway is asked and answers, and the echo request goes out
   with its MAC address and the target's IP address. The gateway does not take it for its own.
   */
  lemma GatewayIsAsked(a: Host, g: Host, now: nat, pad1: seq<byte>, pad2: seq<byte>, pad3: seq<byte>)
    returns (f2: seq<byte>, a2: Host, f3: seq<byte>)
    requires Ready(a) && Ready(g) && a.ip != NO_IP && g.ip != NO_IP && VlanId(a.ourVlan) == VlanId(g.ourVlan)
    requires a.pingIp != NO_IP && GoesByGateway(a, a.pingIp) && g.ip == a.gateway
    ensures Hears(g, RequestFrame(PingSend(a, now)) + pad1, g, [f2])
    ensures Hears(PingSend(a, now), f2 + pad2, a2, [f3]) && a2 == PingSend(a, now).(packet := [], waitPacketIp := NO_IP)
    ensures f3 == PingFrame(a, g.mac, a.ipId, a.pingSeq) && f3[..6] == g.mac
    ensures IsEchoRequest(f3) && DestinationOf(f3) == a.pingIp
    ensures a.pingIp != g.ip && a.pingIp != BROADCAST_IP ==> Hears(g, f3 + pad3, g, [])
  {
    Wire.PingAsks(a, now);
    hide GoesByGateway, NextHop;
    var a1 := PingSend(a, now);
    f2 := RequestIsAnswered(a1, g, pad1);
    a2 := a1.(packet := [], waitPacketIp := NO_IP);
    f3 := PingFrame(a, g.mac, a.ipId, a.pingSeq);
    QueuedIsPing(a, now, g.mac);
    ReplyReleasesPacket(a1, g, f2, pad2);
    PingGoesTo(a, g, f3, pad3);
  }

  /** What a host makes of an echo request for somebody else. */
  lemma PingGoesTo(a: Host, g: Host, f: seq<byte>, pad: seq<byte>)
    requires Ready(g) && g.ip != NO_IP && f == PingFrame(a, g.mac, a.ipId, a.pingSeq)
    ensures f[..6] == g.mac && IsEchoRequest(f) && DestinationOf(f) == a.pingIp
    ensures a.pingIp != g.ip && a.pingIp != BROADCAST_IP ==> Hears(g, f + pad, g, [])
  {
    var body := PingBody(a.ipId, a.ip, a.pingIp, a.pingSeq);
    BuiltIsReceived(g.mac, a.mac, a.ourVlan, PROT_IP, body, 0, 0);
    PingBodyFields(a.ipId, a.ip, a.pingIp, a.pingSeq, []);
    PingBodyFields(a.ipId, a.ip, a.pingIp, a.pingSeq, pad);
    assert body + [] == body;
    PaddingKeepsFraming(f, pad);
    hide PingBody, EtherHeader, VlanAccepts;
  }

  /** The queued packet is the echo request; only its destination is filled in later. */
  lemma QueuedIsPing(a: Host, now: nat, dest: Mac)
    ensures Splice(PingSend(a, now).packet, 0, dest) == PingFrame(a, dest, a.ipId, a.pingSeq)
  {
  }

  /** The header of an echo request with a checksum one too low. */
  function MissealedHeader(id: u16, src: Ip, dst: Ip): (h: seq<byte>)
    requires Cksum(PingIpHeader(id, src, dst)) > 0
    ensures |h| == IP_HDR_SIZE
  {
    var h := PingIpHeader(id, src, dst);
    Splice(h, 10, LeBytes(Cksum(h) - 1))
  }

  /** A host accepts such a packet for it, although RFC 1071 would not. */
  lemma {:induction false} MissealedIsAccepted(h: Host, id: u16, src: Ip, icmp: seq<byte>)
    requires Cksum(PingIpHeader(id, src, h.ip)) > 0 && |icmp| == IP_ICMP_HDR_SIZE - IP_HDR_SIZE
    ensures var b := MissealedHeader(id, src, h.ip) + icmp; IpAccepts(h, b) && Cksum(b[..IP_HDR_SIZE]) == 1
  {
    var bare := PingIpHeader(id, src, h.ip);
    assert bare[10] == bare[11] == 0;
    AcceptsOneTooMany(bare, 10);
    var b := MissealedHeader(id, src, h.ip) + icmp;
    assert b[..IP_HDR_SIZE] == MissealedHeader(id, src, h.ip);
    assert bare[2..4] == BeBytes(IP_ICMP_HDR_SIZE) && bare[6..8] == BeBytes(0x4000);
    assert b[2..4] == bare[2..4] && b[6..8] == bare[6..8] && b[16..20] == bare[16..20] == h.ip;
    Be16OfBytes(b, 2, IP_ICMP_HDR_SIZE);
    Be16OfBytes(b, 6, 0x4000);
  }

  lemma NextWord(s: seq<byte>, i: nat)
    requires i + 2 <= |s|
    ensures WordSum(s[i..]) == Le16(s, i) + WordSum(s[i + 2..])
  {
    assert s[i..][2..] == s[i + 2..];
  }

  /** For example an echo request from 10.0.0.1 to 10.0.0.2, with 0xde66 for 0xde67. */
  lemma {:induction false} MissealedExample(h: Host, icmp: seq<byte>)
    requires h.ip == [10, 0, 0, 2] && |icmp| == IP_ICMP_HDR_SIZE - IP_HDR_SIZE
    ensures Cksum(PingIpHeader(0, [10, 0, 0, 1], h.ip)) == 0xde67
    ensures IpAccepts(h, MissealedHeader(0, [10, 0, 0, 1], h.ip) + icmp)
  {
    hide OnesSum, IpAccepts;
    ExampleSum();
    MissealedIsAccepted(h, 0, [10, 0, 0, 1], icmp);
  }

  lemma TenWords(h: seq<byte>)
    requires |h| == IP_HDR_SIZE
    ensures WordSum(h) == Le16(h, 0) + Le16(h, 2) + Le16(h, 4) + Le16(h, 6) + Le16(h, 8)
                          + Le16(h, 10) + Le16(h, 12) + Le16(h, 14) + Le16(h, 16) + Le16(h, 18)
  {
    assert WordSum([]) == 0;
    hide WordSum;
    assert h[0..] == h && h[20..] == [];
    NextWord(h, 0);
    NextWord(h, 2);
    NextWord(h, 4);
    NextWord(h, 6);
    NextWord(h, 8);
    NextWord(h, 10);
    NextWord(h, 12);
    NextWord(h, 14);
    NextWord(h, 16);
    NextWord(h, 18);
  }

  lemma ExampleSum()
    ensures Cksum(PingIpHeader(0, [10, 0, 0, 1], [10, 0, 0, 2])) == 0xde67
  {
    hide WordSum, OnesSum;
    var h := PingIpHeader(0, [10, 0, 0, 1], [10, 0, 0, 2]);
    TenWords(h);
    OnesSumIsCanon(h);
    assert WordSum(h) == 0x2198;
  }
}
