/**
 One host of the network as a value: the globals of net/net.c, net/arp.c and net/ping.c that decide
 what it sends, and what each of its events does to them. Class `NetHost` proves the code does this.
 */
module HostModel {
  import opened Bytes
  import opened Options
  import opened Checksum
  import opened Frames

  const PKTSIZE_ALIGN := 1536
  const ARP_TIMEOUT := 5000
  const ARP_TIMEOUT_COUNT := 5

  datatype LoopState = Continue | Restart | Success | Fail

  datatype Host = Host(
    mac: Mac, ip: Ip, netmask: Ip, gateway: Ip, ourVlan: u16, nativeVlan: u16,
    pingIp: Ip, pingSeq: u16, ipId: u16,
    /** the address a packet waits for, `NO_IP` when none waits, and the address asked for */
    waitPacketIp: Ip, waitReplyIp: Ip, waitTry: nat, waitStart: nat,
    /** the packet that waits, at the front of the transmit buffer */
    packet: seq<byte>,
    state: LoopState
  )

  /** A packet that waits has a link header whose destination can be filled in. */
  predicate Ready(h: Host) {
    h.waitPacketIp != NO_IP ==> |h.packet| >= ETHER_HDR_SIZE
  }

  /** A frame that, if it is an echo request, does not claim to be shorter than its own IP header. */
  predicate Sane(f: seq<byte>) {
    IsEchoRequest(f) && |Payload(f)| >= IP_ICMP_HDR_SIZE ==> Be16(Payload(f), 2) >= IP_HDR_SIZE
  }

  /** The low `n` bits of `x & y`. */
  function And(x: nat, y: nat, n: nat): nat {
    if n == 0 then 0 else (if x % 2 == 1 && y % 2 == 1 then 1 else 0) + 2 * And(x / 2, y / 2, n - 1)
  }

  predicate SameSubnet(mask: Ip, a: Ip, b: Ip) {
    forall i {:trigger a[i]} {:trigger b[i]} :: 0 <= i < 4 ==> And(a[i], mask[i], 8) == And(b[i], mask[i], 8)
  }

  /** Whom a host asks for a MAC address to send to `dst`: that address itself, or the gateway. */
  function NextHop(h: Host, dst: Ip): Ip {
    if !SameSubnet(h.netmask, dst, h.ip) && h.gateway != NO_IP then h.gateway else dst
  }

  /** Bit `k` of a number, counted from the lowest. */
  function Bit(x: nat, k: nat): nat {
    if k == 0 then x % 2 else Bit(x / 2, k - 1)
  }

  /** A bit that is set in the mask differs. */
  predicate BitDiffers(mask: nat, x: nat, y: nat, n: nat) {
    exists k: nat {:trigger Bit(mask, k)} :: k < n && Bit(mask, k) == 1 && Bit(x, k) != Bit(y, k)
  }

  /** The way to `dst` leads over the gateway: there is one, and some bit set in the netmask differs from the host's own address. */
  predicate GoesByGateway(h: Host, dst: Ip) {
    && h.gateway != [0, 0, 0, 0]
    && (BitDiffers(h.netmask[0], dst[0], h.ip[0], 8) || BitDiffers(h.netmask[1], dst[1], h.ip[1], 8)
        || BitDiffers(h.netmask[2], dst[2], h.ip[2], 8) || BitDiffers(h.netmask[3], dst[3], h.ip[3], 8))
  }

  /** The lowest bit differs, or one of the others. */
  lemma LowestBitOrHigher(mask: nat, x: nat, y: nat, n: nat)
    requires n > 0
    ensures BitDiffers(mask, x, y, n) <==>
              (mask % 2 == 1 && x % 2 != y % 2) || BitDiffers(mask / 2, x / 2, y / 2, n - 1)
  {
    if BitDiffers(mask, x, y, n) {
      var k: nat :| k < n && Bit(mask, k) == 1 && Bit(x, k) != Bit(y, k);
      assert k > 0 ==> Bit(mask / 2, k - 1) == 1 && Bit(x / 2, k - 1) != Bit(y / 2, k - 1);
    }
    if BitDiffers(mask / 2, x / 2, y / 2, n - 1) {
      var k: nat :| k < n - 1 && Bit(mask / 2, k) == 1 && Bit(x / 2, k) != Bit(y / 2, k);
      assert Bit(mask, k + 1) == 1;
    }
    assert Bit(mask, 0) == mask % 2;
  }

  lemma {:induction false} AndByBits(x: nat, y: nat, mask: nat, n: nat)
    ensures And(x, mask, n) == And(y, mask, n) <==> !BitDiffers(mask, x, y, n)
  {
    if n > 0 {
      hide BitDiffers, Bit;
      AndByBits(x / 2, y / 2, mask / 2, n - 1);
      LowestBitOrHigher(mask, x, y, n);
    }
  }

  /** The masked comparison is one bit by bit. */
  lemma {:induction false} HopIsByBits(h: Host, dst: Ip)
    ensures NextHop(h, dst) == if GoesByGateway(h, dst) then h.gateway else dst
  {
    hide And, BitDiffers;
    AndByBits(dst[0], h.ip[0], h.netmask[0], 8);
    AndByBits(dst[1], h.ip[1], h.netmask[1], 8);
    AndByBits(dst[2], h.ip[2], h.netmask[2], 8);
    AndByBits(dst[3], h.ip[3], h.netmask[3], 8);
  }

  function ArpTarget(h: Host): Ip {
    NextHop(h, h.waitPacketIp)
  }

  function RequestFrame(h: Host): seq<byte> {
    EtherHeader(BROADCAST_MAC, h.mac, h.ourVlan, PROT_ARP)
    + ArpBody(Arp(ARPOP_REQUEST, h.mac, h.ip, NULL_MAC, h.waitReplyIp))
  }

  /** `arp_request`: the host afterwards sends `RequestFrame`. */
  function ArpRequest(h: Host): Host {
    h.(waitReplyIp := ArpTarget(h))
  }

  /** The echo request `ping_send` leaves in the transmit buffer, with `dest` as its destination MAC. */
  function PingFrame(h: Host, dest: Mac, id: u16, seqno: u16): seq<byte> {
    EtherHeader(dest, h.mac, h.ourVlan, PROT_IP) + PingBody(id, h.ip, h.pingIp, seqno)
  }

  function Next16(w: u16): u16 {
    if w == 0xffff then 0 else w + 1
  }

  /** An echo request queued, with the first of its ARP requests due. */
  function QueuePing(h: Host, now: nat): Host {
    h.(waitPacketIp := h.pingIp, packet := PingFrame(h, NULL_MAC, h.ipId, h.pingSeq),
       waitTry := 1, waitStart := now, pingSeq := Next16(h.pingSeq), ipId := Next16(h.ipId))
  }

  /** `ping_send`: queue an echo request and ask for the MAC address to send it to. */
  function PingSend(h: Host, now: nat): (r: Host)
    ensures Ready(r)
  {
    ArpRequest(QueuePing(h, now))
  }

  /** `arp_timeout_check`, while a packet waits; frames sent come second. */
  function ArpTimeout(h: Host, now: nat): (r: (Host, seq<seq<byte>>))
    requires Ready(h) && h.waitPacketIp != NO_IP && h.waitStart <= now
    ensures Ready(r.0)
  {
    if now - h.waitStart <= ARP_TIMEOUT then (h, [])
    else if h.waitTry + 1 >= ARP_TIMEOUT_COUNT then (h.(waitTry := 0, state := Fail), [])
    else
      var g := ArpRequest(h.(waitTry := h.waitTry + 1, waitStart := now));
      (g, [RequestFrame(g)])
  }

  /** The answer to an ARP request, in the frame the request came in. */
  function ArpAnswer(h: Host, f: seq<byte>, a: Arp): seq<byte>
    requires HasHeader(f) && ProtocolOf(f) == PROT_ARP
  {
    AnswerHeader(h, f, PROT_ARP) + ArpBody(Arp(ARPOP_REPLY, h.mac, h.ip, a.sha, a.spa))
  }

  /** The link header of `f` turned round. */
  function AnswerHeader(h: Host, f: seq<byte>, prot: u16): (r: seq<byte>)
    requires HasHeader(f) && (ProtocolOf(f) == PROT_ARP || ProtocolOf(f) == PROT_IP)
    ensures |r| == FramingOf(f).Size()
  {
    UpdateEther(f, f[6..12], h.mac, prot)[..FramingOf(f).Size()]
  }

  /** `arp_receive` */
  function ArpReceive(h: Host, f: seq<byte>): (r: (Host, seq<seq<byte>>))
    requires Ready(h) && HasHeader(f) && ProtocolOf(f) == PROT_ARP
    ensures Ready(r.0)
  {
    match ParseArp(Payload(f))
    case None => (h, [])
    case Some(a) =>
      if h.ip == NO_IP || a.tpa != h.ip then (h, [])
      else if a.op == ARPOP_REQUEST then (h, [ArpAnswer(h, f, a)])
      else if a.op == ARPOP_REPLY && h.waitPacketIp != NO_IP && a.spa == h.waitReplyIp then
        (h.(packet := [], waitPacketIp := NO_IP), [Splice(h.packet, 0, a.sha)])
      else (h, [])
  }

  /** The checks `net_process_received_packet` makes before it hands an IP packet on; no reassembly. */
  predicate IpAccepts(h: Host, b: seq<byte>) {
    && |b| >= IP_ICMP_HDR_SIZE && |b| >= Be16(b, 2)
    && b[0] / 16 == 4 && b[0] % 16 <= 5
    && IpChecksumOk(b[..IP_HDR_SIZE])
    && (h.ip == NO_IP || b[16..20] == h.ip || b[16..20] == BROADCAST_IP)
    && Be16(b, 6) as int % 0x4000 == 0
  }

  function EchoAnswer(h: Host, f: seq<byte>): seq<byte>
    requires IsEchoRequest(f) && IpAccepts(h, Payload(f)) && Sane(f)
  {
    var len := Be16(Payload(f), 2);
    AnswerHeader(h, f, PROT_IP) + EchoBody(Payload(f), h.ip, len)[..len]
  }

  /** Everything behind `PROT_IP`: only ICMP echo has an effect. */
  function IpReceive(h: Host, f: seq<byte>): (r: (Host, seq<seq<byte>>))
    requires Ready(h) && HasHeader(f) && ProtocolOf(f) == PROT_IP && Sane(f)
    ensures Ready(r.0)
  {
    var b := Payload(f);
    if !IpAccepts(h, b) || b[9] != IPPROTO_ICMP then (h, [])
    else if b[20] == ICMP_ECHO_REPLY then
      (if b[12..16] == h.pingIp then h.(state := Success) else h, [])
    else if b[20] == ICMP_ECHO_REQUEST then (h, [EchoAnswer(h, f)])
    else (h, [])
  }

  /** `net_process_received_packet`; frames sent come second. */
  function Receive(h: Host, f: seq<byte>): (r: (Host, seq<seq<byte>>))
    requires Ready(h) && Sane(f)
    ensures Ready(r.0)
  {
    if !HasHeader(f) || !VlanAccepts(f, h.ourVlan, h.nativeVlan) then (h, [])
    else if ProtocolOf(f) == PROT_ARP then ArpReceive(h, f)
    else if ProtocolOf(f) == PROT_IP then IpReceive(h, f)
    else (h, [])
  }

  /** An answer is framed and addressed so that whoever hears `f` can hear it. */
  lemma AnswerHeaderFields(h: Host, f: seq<byte>, prot: u16, rest: seq<byte>)
    requires HasHeader(f) && (ProtocolOf(f) == PROT_ARP || ProtocolOf(f) == PROT_IP)
    requires prot == PROT_ARP || prot == PROT_IP
    ensures var g := AnswerHeader(h, f, prot) + rest;
            && HasHeader(g) && ProtocolOf(g) == prot && Payload(g) == rest
            && g[..6] == f[6..12] && g[6..12] == h.mac
            && (forall our, native :: VlanAccepts(g, our, native) <==> VlanAccepts(f, our, native))
  {
    hide BeBytes;
    var u := UpdateEther(f, f[6..12], h.mac, prot);
    AnswerKeepsFraming(f, f[6..12], h.mac, prot);
    var n := FramingOf(f).Size();
    var g := u[..n] + rest;
    assert forall k :: 0 <= k < n ==> g[k] == u[k];
    assert g[..6] == u[..6] && g[6..12] == u[6..12];
    assert g[n..] == rest;
  }
}
