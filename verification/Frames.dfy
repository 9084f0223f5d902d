/** Ethernet, ARP, IP and ICMP as the source lays them out in its packet buffers (net/net.h). */
module Frames {
  import opened Bytes
  import opened Options
  import opened Checksum

  type Mac = s: seq<byte> | |s| == 6 witness [0, 0, 0, 0, 0, 0]

  type Ip = s: seq<byte> | |s| == 4 witness [0, 0, 0, 0]

  const NULL_MAC: Mac := [0, 0, 0, 0, 0, 0]
  const BROADCAST_MAC: Mac := [0xff, 0xff, 0xff, 0xff, 0xff, 0xff]
  const NO_IP: Ip := [0, 0, 0, 0]
  const BROADCAST_IP: Ip := [0xff, 0xff, 0xff, 0xff]

  const ETHER_HDR_SIZE := 14
  const VLAN_ETHER_HDR_SIZE := 18
  const E802_HDR_SIZE := 22
  const ARP_HDR_SIZE := 28
  const IP_HDR_SIZE := 20
  const IP_ICMP_HDR_SIZE := 28

  const PROT_IP: u16 := 0x0800
  const PROT_ARP: u16 := 0x0806
  const PROT_VLAN: u16 := 0x8100
  const VLAN_NONE := 4095

  const ARPOP_REQUEST := 1
  const ARPOP_REPLY := 2
  const IPPROTO_ICMP := 1
  const ICMP_ECHO_REPLY := 0
  const ICMP_ECHO_REQUEST := 8

  /** The VLAN a host takes part in; `VLAN_NONE` when it takes part in none. */
  function VlanId(vlan: u16): (id: nat)
    ensures id <= VLAN_NONE
  {
    if vlan == 0xffff then VLAN_NONE else vlan % 0x1000
  }

  // Link layer

  /** The header `net_set_ether` writes. */
  function EtherHeader(dest: Mac, src: Mac, vlan: u16, prot: u16): (h: seq<byte>)
    ensures |h| == if VlanId(vlan) == VLAN_NONE then ETHER_HDR_SIZE else VLAN_ETHER_HDR_SIZE
  {
    if VlanId(vlan) == VLAN_NONE then dest + src + BeBytes(prot)
    else dest + src + BeBytes(PROT_VLAN) + BeBytes(VlanId(vlan)) + BeBytes(prot)
  }

  /** How the header of a frame is laid out, as `net_process_received_packet` tells it. */
  datatype Framing = Ether | Tagged | Snap {
    function Size(): nat {
      match this
      case Ether => ETHER_HDR_SIZE
      case Tagged => VLAN_ETHER_HDR_SIZE
      case Snap => E802_HDR_SIZE
    }
  }

  function FramingOf(f: seq<byte>): Framing
    requires |f| >= ETHER_HDR_SIZE
  {
    if Be16(f, 12) < 1514 then Snap else if Be16(f, 12) != PROT_VLAN then Ether else Tagged
  }

  /** The protocol field, which ends the header in every framing. */
  function ProtocolOf(f: seq<byte>): u16
    requires |f| >= ETHER_HDR_SIZE && |f| >= FramingOf(f).Size()
  {
    Be16(f, FramingOf(f).Size() - 2)
  }

  /** A frame with its whole link header present. */
  predicate HasHeader(f: seq<byte>) {
    |f| >= ETHER_HDR_SIZE && |f| >= FramingOf(f).Size()
  }

  function Payload(f: seq<byte>): seq<byte>
    requires HasHeader(f)
  {
    f[FramingOf(f).Size()..]
  }

  /** Does a host with VLAN settings `our` and `native` listen to the frame? */
  predicate VlanAccepts(f: seq<byte>, our: u16, native: u16)
    requires HasHeader(f)
  {
    var id := if FramingOf(f).Tagged? then Be16(f, 14) as int % 0x1000 else VLAN_NONE;
    if VlanId(our) == VLAN_NONE then !FramingOf(f).Tagged?
    else (if id == VLAN_NONE then VlanId(native) else id) == VlanId(our)
  }

  /** The header size `net_update_ether` decides on. */
  function UpdateSize(f: seq<byte>): nat
    requires |f| >= ETHER_HDR_SIZE
  {
    if Be16(f, 12) == PROT_VLAN then VLAN_ETHER_HDR_SIZE
    else if Be16(f, 12) > 1514 then ETHER_HDR_SIZE
    else E802_HDR_SIZE
  }

  /** The frame `net_update_ether` turns `f` into. */
  function UpdateEther(f: seq<byte>, dest: Mac, src: Mac, prot: u16): (g: seq<byte>)
    requires HasHeader(f) && |f| >= UpdateSize(f)
    ensures |g| == |f|
  {
    Splice(Splice(f, 0, dest + src), UpdateSize(f) - 2, BeBytes(prot))
  }

  lemma Be16OfBytes(b: seq<byte>, i: nat, w: u16)
    requires i + 2 <= |b| && b[i..i + 2] == BeBytes(w)
    ensures Be16(b, i) == w
  {
    assert b[i] == b[i..i + 2][0] && b[i + 1] == b[i..i + 2][1];
  }

  /** A frame built for sending is received as what it was built for. */
  lemma BuiltIsReceived(dest: Mac, src: Mac, vlan: u16, prot: u16, rest: seq<byte>, our: u16, native: u16)
    requires prot >= 1514 && prot != PROT_VLAN
    ensures var f := EtherHeader(dest, src, vlan, prot) + rest;
            && HasHeader(f) && ProtocolOf(f) == prot && Payload(f) == rest
            && FramingOf(f).Size() == |EtherHeader(dest, src, vlan, prot)|
            && f[..6] == dest && f[6..12] == src
            && (VlanId(our) == VlanId(vlan) ==> VlanAccepts(f, our, native))
  {
    var h := EtherHeader(dest, src, vlan, prot);
    var f := h + rest;
    var n := |h|;
    assert f[n - 2..n] == BeBytes(prot);
    Be16OfBytes(f, n - 2, prot);
    if n == VLAN_ETHER_HDR_SIZE {
      assert f[12..14] == BeBytes(PROT_VLAN);
      Be16OfBytes(f, 12, PROT_VLAN);
      assert f[14..16] == BeBytes(VlanId(vlan));
      Be16OfBytes(f, 14, VlanId(vlan));
    }
    assert f[n..] == rest;
  }

  /**
   The two tests around 1514 agree wherever a frame is answered: the header size used to write the
   answer is the one used to parse the question, and the answer is framed like the question.
   */
  lemma AnswerKeepsFraming(f: seq<byte>, dest: Mac, src: Mac, prot: u16)
    requires HasHeader(f) && (ProtocolOf(f) == PROT_IP || ProtocolOf(f) == PROT_ARP)
    requires prot >= 1514 && prot != PROT_VLAN
    ensures UpdateSize(f) == FramingOf(f).Size()
    ensures var g := UpdateEther(f, dest, src, prot);
            && HasHeader(g) && FramingOf(g) == FramingOf(f) && ProtocolOf(g) == prot && Payload(g) == Payload(f)
            && g[..6] == dest && g[6..12] == src
            && (forall our, native :: VlanAccepts(g, our, native) <==> VlanAccepts(f, our, native))
  {
    var g := UpdateEther(f, dest, src, prot);
    var n := UpdateSize(f);
    assert g[n - 2] == BeBytes(prot)[0] && g[n - 1] == BeBytes(prot)[1];
    assert n != ETHER_HDR_SIZE ==> g[12] == f[12] && g[13] == f[13];
    assert n == VLAN_ETHER_HDR_SIZE ==> g[14] == f[14] && g[15] == f[15];
    assert g[n..] == f[n..];
    assert g[..6] == dest && g[6..12] == src;
  }

  // ARP

  datatype Arp = Arp(op: u16, sha: Mac, spa: Ip, tha: Mac, tpa: Ip)

  const ARP_PREFIX: seq<byte> := [0, 1, 8, 0, 6, 4]

  function ArpBody(a: Arp): (b: seq<byte>)
    ensures |b| == ARP_HDR_SIZE
  {
    ARP_PREFIX + BeBytes(a.op) + a.sha + a.spa + a.tha + a.tpa
  }

  /** The ARP packet at the front of `b`, if `arp_receive` takes it for one over Ethernet and IP. */
  function ParseArp(b: seq<byte>): Option<Arp> {
    if |b| < ARP_HDR_SIZE || Be16(b, 0) != 1 || Be16(b, 2) != PROT_IP || b[4] != 6 || b[5] != 4 then None
    else Some(Arp(Be16(b, 6), b[8..14], b[14..18], b[18..24], b[24..28]))
  }

  lemma ArpRoundTrip(a: Arp, rest: seq<byte>)
    ensures ParseArp(ArpBody(a) + rest) == Some(a)
  {
    var b := ArpBody(a) + rest;
    assert b[6..8] == BeBytes(a.op);
    Be16OfBytes(b, 6, a.op);
    assert b[8..14] == a.sha && b[14..18] == a.spa && b[18..24] == a.tha && b[24..28] == a.tpa;
  }

  /** A packet that parses is the encoding of what it parses to. */
  lemma ArpParsed(b: seq<byte>)
    requires ParseArp(b).Some?
    ensures b[..ARP_HDR_SIZE] == ArpBody(ParseArp(b).value)
  {
  }

  // IP and ICMP

  /** The header of an echo request before its checksum is filled in. */
  function PingIpHeader(id: u16, src: Ip, dst: Ip): (h: seq<byte>)
    ensures |h| == IP_HDR_SIZE
  {
    [0x45, 0] + BeBytes(IP_ICMP_HDR_SIZE) + BeBytes(id) + BeBytes(0x4000) + [255, IPPROTO_ICMP, 0, 0] + src + dst
  }

  function PingIcmp(seqno: u16): seq<byte> {
    [ICMP_ECHO_REQUEST, 0, 0, 0, 0, 0] + BeBytes(seqno)
  }

  /** `h` with its own checksum filled in at the zeroed word at `at`. */
  function Sealed(h: seq<byte>, at: nat): (r: seq<byte>)
    requires at + 2 <= |h|
    ensures |r| == |h|
  {
    Splice(h, at, LeBytes(Cksum(h)))
  }

  /** The frame of an ICMP echo request over IP. */
  predicate IsEchoRequest(f: seq<byte>) {
    && HasHeader(f) && ProtocolOf(f) == PROT_IP
    && |Payload(f)| > IP_HDR_SIZE && Payload(f)[9] == IPPROTO_ICMP && Payload(f)[20] == ICMP_ECHO_REQUEST
  }

  /** Where the IP packet in a frame goes. */
  function DestinationOf(f: seq<byte>): Ip
    requires IsEchoRequest(f)
  {
    Payload(f)[16..20]
  }

  /** The IP packet of an echo request. */
  function PingBody(id: u16, src: Ip, dst: Ip, seqno: u16): (b: seq<byte>)
    ensures |b| == IP_ICMP_HDR_SIZE
  {
    Sealed(PingIpHeader(id, src, dst), 10) + Sealed(PingIcmp(seqno), 2)
  }

  /** The echo reply made in place from the IP packet `b`, `len` bytes long by its own length field. */
  function EchoBody(b: seq<byte>, src: Ip, len: nat): (r: seq<byte>)
    requires IP_ICMP_HDR_SIZE <= |b| && IP_HDR_SIZE <= len <= |b|
    ensures |r| == |b|
  {
    Sealed(EchoIpHeader(b[..IP_HDR_SIZE], src), 10) + EchoIcmp(b[IP_HDR_SIZE..], len - IP_HDR_SIZE)
  }

  /** The ICMP part `t` of an echo request made into its reply; `n` bytes of it are summed. */
  function EchoIcmp(t: seq<byte>, n: nat): (r: seq<byte>)
    requires 8 <= |t| && n <= |t|
    ensures |r| == |t|
  {
    var z := t[0 := ICMP_ECHO_REPLY][2 := 0][3 := 0];
    Splice(z, 2, LeBytes(Cksum(z[..n])))
  }

  /** The reply's IP header before its checksum is filled in: no fragment, addresses turned round. */
  function EchoIpHeader(h: seq<byte>, src: Ip): (r: seq<byte>)
    requires |h| == IP_HDR_SIZE
    ensures |r| == IP_HDR_SIZE
  {
    h[..6] + [0, 0] + h[8..10] + [0, 0] + src + h[12..16]
  }
}
