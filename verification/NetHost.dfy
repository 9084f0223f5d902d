/**
 The code of net/arp.c, net/ping.c and the receive path of net/net.c, working in place on packet
 buffers. Every method is tied to what `HostModel` says its event does.
 */
module NetHosts {
  import opened Bytes
  import opened Options
  import opened Checksum
  import opened Frames
  import opened HostModel
  import Wire

  /** An IP header for no payload, before its length, protocol and checksum are filled in. */
  function BareIpHeader(id: u16, protocol: byte, src: Ip, dst: Ip): (h: seq<byte>)
    ensures |h| == IP_HDR_SIZE
  {
    [0x45, 0] + BeBytes(IP_HDR_SIZE) + BeBytes(id) + BeBytes(0x4000) + [255, protocol, 0, 0] + src + dst
  }

  /** `memcpy` into a packet buffer. */
  method Put(a: array<byte>, at: nat, s: seq<byte>)
    requires at + |s| <= a.Length
    modifies a
    ensures a[..] == Splice(old(a[..]), at, s)
  {
    var n := 0;
    while n < |s|
      invariant n <= |s| && a[..] == Splice(old(a[..]), at, s[..n])
    {
      a[at + n] := s[n];
      n := n + 1;
    }
    assert s[..n] == s;
  }

  /** `memcpy` right behind what has been written so far. */
  method Append(a: array<byte>, at: nat, s: seq<byte>)
    requires at + |s| <= a.Length
    modifies a
    ensures a[..at + |s|] == old(a[..at]) + s
    ensures forall k {:trigger a[k]} :: at + |s| <= k < a.Length ==> a[k] == old(a[k])
  {
    Put(a, at, s);
  }

  /** `memcpy` into the header of `size` bytes that begins at `n`. */
  method PutIn(a: array<byte>, n: nat, ghost size: nat, k: nat, s: seq<byte>)
    requires n + size <= a.Length && k + |s| <= size
    modifies a
    ensures a[..n] == old(a[..n])
    ensures a[n..n + size] == Splice(old(a[n..n + size]), k, s)
    ensures a[n + size..] == old(a[n + size..])
  {
    Put(a, n + k, s);
  }

  lemma ArpFields(h: seq<byte>, a: Arp)
    ensures h + BeBytes(1) + BeBytes(PROT_IP) + [6] + [4] + BeBytes(a.op) + a.sha + a.spa + a.tha + a.tpa == h + ArpBody(a)
  {
    assert BeBytes(1) + BeBytes(PROT_IP) + [6] + [4] == ARP_PREFIX;
  }

  lemma IpFields(h: seq<byte>, id: u16, protocol: byte, src: Ip, dst: Ip)
    ensures h + [0x45, 0] + BeBytes(IP_HDR_SIZE) + BeBytes(id) + BeBytes(0x4000) + [255] + [protocol] + [0, 0] + src + dst
         == h + BareIpHeader(id, protocol, src, dst)
  {
  }

  /** The fields `set_icmp_header` fills in. */
  lemma PingFields(id: u16, p: byte, src: Ip, dst: Ip)
    ensures Splice(Splice(BareIpHeader(id, p, src, dst), 2, BeBytes(IP_ICMP_HDR_SIZE)), 9, [IPPROTO_ICMP])
         == PingIpHeader(id, src, dst)
  {
  }

  lemma PrefixAndMore(b: seq<byte>, n: nat, total: nat, len: nat)
    requires n + len <= total <= |b|
    ensures b[..n + len] == b[..n] + b[n..total][..len]
  {
  }

  /** A packet and its two parts. */
  lemma TwoParts(b: seq<byte>, n: nat, m: nat, total: nat)
    requires n <= m <= total <= |b|
    ensures b[n..total] == b[n..m] + b[m..total]
    ensures b[n..total][..m - n] == b[n..m] && b[n..total][m - n..] == b[m..total]
  {
  }

  lemma SameParts(b: seq<byte>, c: seq<byte>, n: nat, m: nat, total: nat)
    requires n <= m <= total <= |b| == |c| && c[m..] == b[m..]
    ensures c[m..total] == b[m..total]
  {
    assert b[m..total] == b[m..][..total - m] && c[m..total] == c[m..][..total - m];
  }

  lemma SameFront(b: seq<byte>, c: seq<byte>, n: nat, m: nat)
    requires n <= m <= |b| == |c| && c[..m] == b[..m]
    ensures c[n..m] == b[n..m] && c[..n] == b[..n]
  {
    assert b[n..m] == b[..m][n..] && c[n..m] == c[..m][n..];
    assert b[..n] == b[..m][..n] && c[..n] == c[..m][..n];
  }

  /** A window of a buffer in two parts. */
  lemma ArrayWindow(a: array<byte>, n: nat, total: nat)
    requires n <= total <= a.Length
    ensures a[..total][..n] == a[..n] && a[..total][n..] == a[n..total]
  {
  }

  lemma FrontOfRest(b: seq<byte>, n: nat, total: nat, len: nat)
    requires n + len <= total <= |b|
    ensures b[n..total][..len] == b[n..n + len]
  {
  }

  /** A window of a window of a buffer. */
  lemma InnerWindow(a: array<byte>, n: nat, total: nat, i: nat, j: nat)
    requires i <= j && n + j <= total <= a.Length
    ensures a[n..total][i..j] == a[n + i..n + j]
  {
    forall k | 0 <= k < j - i
      ensures a[n..total][i..j][k] == a[n + i..n + j][k]
    {
      assert a[n..total][i + k] == a[n + i + k];
    }
  }

  lemma EtherFields(b: seq<byte>, dest: Mac, src: Mac, vlan: u16, prot: u16)
    requires |b| >= VLAN_ETHER_HDR_SIZE
    ensures var g := Splice(Splice(b, 0, dest), 6, src);
         Splice(b, 0, EtherHeader(dest, src, vlan, prot))
         == if VlanId(vlan) == VLAN_NONE then Splice(g, 12, BeBytes(prot))
            else Splice(Splice(Splice(g, 12, BeBytes(PROT_VLAN)), 14, BeBytes(VlanId(vlan))), 16, BeBytes(prot))
  {
    hide BeBytes;
  }

  lemma AddressesFirst(f: seq<byte>, dest: Mac, src: Mac)
    requires |f| >= ETHER_HDR_SIZE
    ensures var g := Splice(Splice(f, 0, dest), 6, src); g == Splice(f, 0, dest + src) && Be16(g, 12) == Be16(f, 12)
  {
  }

  /** The stores that turn an ARP request round, in the source's order. */
  function TurnedRound(b: seq<byte>, mac: Mac, ip: Ip): seq<byte>
    requires |b| == ARP_HDR_SIZE
  {
    var b1 := Splice(b, 6, BeBytes(ARPOP_REPLY));
    var b2 := Splice(b1, 18, b1[8..14]);
    var b3 := Splice(b2, 24, b2[14..18]);
    Splice(Splice(b3, 8, mac), 14, ip)
  }

  lemma TurnedRoundIsReply(a: Arp, mac: Mac, ip: Ip)
    ensures TurnedRound(ArpBody(a), mac, ip) == ArpBody(Arp(ARPOP_REPLY, mac, ip, a.sha, a.spa))
  {
    var b := ArpBody(a);
    var b1 := Splice(b, 6, BeBytes(ARPOP_REPLY));
    assert b1[8..14] == a.sha;
    var b2 := Splice(b1, 18, b1[8..14]);
    assert b2[14..18] == a.spa;
  }

  /** The stores of `ping_receive` into the IP header, up to its checksum. */
  function TurnedIpHeader(h: seq<byte>, ip: Ip): seq<byte>
    requires |h| == IP_HDR_SIZE
  {
    var h1 := Splice(Splice(h, 10, [0, 0]), 6, [0, 0]);
    Splice(Splice(h1, 16, h1[12..16]), 12, ip)
  }

  lemma TurnedIpHeaderIsEcho(h: seq<byte>, ip: Ip)
    requires |h| == IP_HDR_SIZE
    ensures TurnedIpHeader(h, ip) == EchoIpHeader(h, ip)
  {
    var h1 := Splice(Splice(h, 10, [0, 0]), 6, [0, 0]);
    assert h1[12..16] == h[12..16];
  }

  function Peek(a: array<byte>, i: nat): u16
    requires i + 2 <= a.Length
    reads a
  {
    0x100 * (a[i] as int) + (a[i + 1] as int)
  }

  class NetHost {
    var mac: Mac
    var ip: Ip
    var netmask: Ip
    var gateway: Ip
    var ourVlan: u16
    var nativeVlan: u16
    var pingIp: Ip
    var pingSeq: u16
    var ipId: u16
    var waitPacketIp: Ip
    var waitReplyIp: Ip
    var waitTxSize: nat
    var waitTry: nat
    var waitStart: nat
    var state: LoopState

    /** the transmit buffer, and the one for ARP requests alone */
    const txPacket: array<byte>
    const arpTxPacket: array<byte>

    /** every frame handed to `eth_send`, in order */
    var sent: seq<seq<byte>>

    constructor (mac: Mac, ip: Ip, netmask: Ip, gateway: Ip, ourVlan: u16, nativeVlan: u16)
      ensures Valid() && fresh(txPacket) && fresh(arpTxPacket)
      ensures this.mac == mac && this.ip == ip && this.netmask == netmask && this.gateway == gateway
      ensures this.ourVlan == ourVlan && this.nativeVlan == nativeVlan
      ensures waitPacketIp == NO_IP && sent == [] && pingSeq == ipId == 0
    {
      this.mac, this.ip, this.netmask, this.gateway := mac, ip, netmask, gateway;
      this.ourVlan, this.nativeVlan := ourVlan, nativeVlan;
      pingIp, pingSeq, ipId := NO_IP, 0, 0;
      waitPacketIp, waitReplyIp, waitTxSize, waitTry, waitStart := NO_IP, NO_IP, 0, 0, 0;
      state, sent := Continue, [];
      txPacket := new byte[PKTSIZE_ALIGN](_ => 0);
      arpTxPacket := new byte[PKTSIZE_ALIGN](_ => 0);
    }

    predicate Valid()
      reads this
    {
      txPacket.Length == arpTxPacket.Length == PKTSIZE_ALIGN && txPacket != arpTxPacket
      && waitTxSize <= PKTSIZE_ALIGN && (waitPacketIp != NO_IP ==> ETHER_HDR_SIZE <= waitTxSize)
    }

    /** The host as a value. */
    ghost function View(): (h: Host)
      requires waitTxSize <= txPacket.Length
      reads this, txPacket
    {
      Host(mac, ip, netmask, gateway, ourVlan, nativeVlan, pingIp, pingSeq, ipId,
           waitPacketIp, waitReplyIp, waitTry, waitStart, txPacket[..waitTxSize], state)
    }

    /** `net_set_ether` */
    method SetEther(a: array<byte>, dest: Mac, prot: u16) returns (size: nat)
      requires a.Length >= VLAN_ETHER_HDR_SIZE
      modifies a
      ensures size == |EtherHeader(dest, mac, ourVlan, prot)|
      ensures a[..] == Splice(old(a[..]), 0, EtherHeader(dest, mac, ourVlan, prot))
    {
      hide Splice, BeBytes;
      EtherFields(a[..], dest, mac, ourVlan, prot);
      Put(a, 0, dest);
      Put(a, 6, mac);
      if VlanId(ourVlan) == VLAN_NONE {
        Put(a, 12, BeBytes(prot));
        size := ETHER_HDR_SIZE;
      } else {
        Put(a, 12, BeBytes(PROT_VLAN));
        Put(a, 14, BeBytes(VlanId(ourVlan)));
        Put(a, 16, BeBytes(prot));
        size := VLAN_ETHER_HDR_SIZE;
      }
    }

    /** `net_update_ether`, on a received frame of `len` bytes. */
    method UpdateEtherHeader(a: array<byte>, dest: Mac, prot: u16, ghost len: nat) returns (size: nat)
      requires len <= a.Length && a.Length >= E802_HDR_SIZE && HasHeader(a[..len]) && len >= UpdateSize(a[..len])
      modifies a
      ensures size == UpdateSize(old(a[..len]))
      ensures a[..len] == UpdateEther(old(a[..len]), dest, mac, prot)
    {
      hide BeBytes, Splice;
      ghost var f := a[..len];
      assert f == a[0..len];
      AddressesFirst(f, dest, mac);
      PutIn(a, 0, len, 0, dest);
      PutIn(a, 0, len, 6, mac);
      var protlen := Peek(a, 12);
      assert protlen == Be16(a[0..len], 12);
      if protlen == PROT_VLAN {
        PutIn(a, 0, len, 16, BeBytes(prot));
        size := VLAN_ETHER_HDR_SIZE;
      } else if protlen > 1514 {
        PutIn(a, 0, len, 12, BeBytes(prot));
        size := ETHER_HDR_SIZE;
      } else {
        PutIn(a, 0, len, 20, BeBytes(prot));
        size := E802_HDR_SIZE;
      }
      assert a[..len] == a[0..len];
    }

    /** `arp_raw_request` */
    method ArpRawRequest(sourceIp: Ip, targetEthaddr: Mac, targetIp: Ip)
      requires Valid()
      modifies this`sent, arpTxPacket
      ensures sent == old(sent) + [EtherHeader(BROADCAST_MAC, mac, ourVlan, PROT_ARP)
                                   + ArpBody(Arp(ARPOP_REQUEST, mac, sourceIp, targetEthaddr, targetIp))]
    {
      var n := SetEther(arpTxPacket, BROADCAST_MAC, PROT_ARP);
      assert arpTxPacket[..n] == EtherHeader(BROADCAST_MAC, mac, ourVlan, PROT_ARP);
      WriteArpRequest(n, Arp(ARPOP_REQUEST, mac, sourceIp, targetEthaddr, targetIp));
      sent := sent + [arpTxPacket[..n + ARP_HDR_SIZE]];
    }

    /** The stores of `arp_raw_request` behind the link header. */
    method WriteArpRequest(n: nat, a: Arp)
      requires arpTxPacket.Length >= n + ARP_HDR_SIZE
      modifies arpTxPacket
      ensures arpTxPacket[..n + ARP_HDR_SIZE] == old(arpTxPacket[..n]) + ArpBody(a)
    {
      hide BeBytes, ArpBody;
      ArpFields(arpTxPacket[..n], a);
      Append(arpTxPacket, n, BeBytes(1));
      Append(arpTxPacket, n + 2, BeBytes(PROT_IP));
      Append(arpTxPacket, n + 4, [6]);
      Append(arpTxPacket, n + 5, [4]);
      Append(arpTxPacket, n + 6, BeBytes(a.op));
      Append(arpTxPacket, n + 8, a.sha);
      Append(arpTxPacket, n + 14, a.spa);
      Append(arpTxPacket, n + 18, a.tha);
      Append(arpTxPacket, n + 24, a.tpa);
    }

    /** `arp_request` */
    method ArpRequest()
      requires Valid()
      modifies this`waitReplyIp, this`sent, arpTxPacket
      ensures Valid() && View() == HostModel.ArpRequest(old(View()))
      ensures sent == old(sent) + [RequestFrame(View())]
      ensures sent == old(sent) + [Wire.RequestOctets(old(View()), Wire.Hop(old(View()), old(waitPacketIp)))]
    {
      ghost var h := View();
      if !SameSubnet(netmask, waitPacketIp, ip) {
        if gateway == NO_IP {
          waitReplyIp := waitPacketIp;
        } else {
          waitReplyIp := gateway;
        }
      } else {
        waitReplyIp := waitPacketIp;
      }
      ArpRawRequest(ip, NULL_MAC, waitReplyIp);
      Wire.HopAsked(h);
    }

    /** `arp_timeout_check` */
    method ArpTimeoutCheck(now: nat) returns (waiting: bool)
      requires Valid() && (waitPacketIp != NO_IP ==> waitStart <= now)
      modifies this, arpTxPacket
      ensures Valid() && waiting == (old(waitPacketIp) != NO_IP)
      ensures waiting ==> View() == ArpTimeout(old(View()), now).0 && sent == old(sent) + ArpTimeout(old(View()), now).1
      ensures !waiting ==> View() == old(View()) && sent == old(sent)
    {
      assert sent + [] == sent;
      if waitPacketIp == NO_IP {
        return false;
      }
      if now - waitStart > ARP_TIMEOUT {
        waitTry := waitTry + 1;
        if waitTry >= ARP_TIMEOUT_COUNT {
          waitTry := 0;
          state := Fail;
        } else {
          waitStart := now;
          ArpRequest();
        }
      }
      waiting := true;
    }

    /** `net_set_ip_header`: everything but the protocol field. */
    method SetIpHeader(n: nat, dest: Ip, source: Ip)
      requires n + IP_HDR_SIZE <= txPacket.Length
      modifies this`ipId, txPacket
      ensures ipId == Next16(old(ipId))
      ensures txPacket[..n + IP_HDR_SIZE] == old(txPacket[..n]) + BareIpHeader(old(ipId), old(txPacket[n + 9]), source, dest)
    {
      hide BeBytes, BareIpHeader;
      ghost var p := txPacket[n + 9];
      IpFields(txPacket[..n], ipId, p, source, dest);
      Append(txPacket, n, [0x45, 0]);
      Append(txPacket, n + 2, BeBytes(IP_HDR_SIZE));
      Append(txPacket, n + 4, BeBytes(ipId));
      ipId := Next16(ipId);
      Append(txPacket, n + 6, BeBytes(0x4000));
      Append(txPacket, n + 8, [255]);
      assert txPacket[..n + 10] == txPacket[..n + 9] + [p];
      Append(txPacket, n + 10, [0, 0]);
      Append(txPacket, n + 12, source);
      Append(txPacket, n + 16, dest);
    }

    /** `set_icmp_header`, behind the link header. */
    method SetIcmpHeader(n: nat, dest: Ip)
      requires n + IP_ICMP_HDR_SIZE <= txPacket.Length
      modifies this`ipId, this`pingSeq, txPacket
      ensures ipId == Next16(old(ipId)) && pingSeq == Next16(old(pingSeq))
      ensures txPacket[..n + IP_ICMP_HDR_SIZE]
              == old(txPacket[..n]) + PingBody(old(ipId), ip, dest, old(pingSeq))
    {
      SetPingIpHeader(n, dest);
      WriteEchoRequest(n + IP_HDR_SIZE);
    }

    /** The IP part of `set_icmp_header`. */
    method SetPingIpHeader(n: nat, dest: Ip)
      requires n + IP_HDR_SIZE <= txPacket.Length
      modifies this`ipId, txPacket
      ensures ipId == Next16(old(ipId))
      ensures txPacket[..n + IP_HDR_SIZE] == old(txPacket[..n]) + Sealed(PingIpHeader(old(ipId), ip, dest), 10)
    {
      hide BeBytes, LeBytes, BareIpHeader, PingIpHeader, Splice;
      ghost var h, bare := txPacket[..n], BareIpHeader(ipId, txPacket[n + 9], ip, dest);
      PingFields(ipId, txPacket[n + 9], ip, dest);
      SetIpHeader(n, dest, ip);
      assert txPacket[..n] == h && txPacket[n..n + IP_HDR_SIZE] == bare;
      PutIn(txPacket, n, IP_HDR_SIZE, 2, BeBytes(IP_ICMP_HDR_SIZE));
      PutIn(txPacket, n, IP_HDR_SIZE, 9, [IPPROTO_ICMP]);
      var sum := ComputeIpChecksum(txPacket[n..n + IP_HDR_SIZE]);
      PutIn(txPacket, n, IP_HDR_SIZE, 10, LeBytes(sum));
      assert txPacket[..n + IP_HDR_SIZE] == txPacket[..n] + txPacket[n..n + IP_HDR_SIZE];
    }

    /** The ICMP part of `set_icmp_header`. */
    method WriteEchoRequest(n: nat)
      requires n + 8 <= txPacket.Length
      modifies this`pingSeq, txPacket
      ensures pingSeq == Next16(old(pingSeq))
      ensures txPacket[..n + 8] == old(txPacket[..n]) + Sealed(PingIcmp(old(pingSeq)), 2)
    {
      hide BeBytes, LeBytes, Splice;
      ghost var h, full := txPacket[..n], PingIcmp(pingSeq);
      Append(txPacket, n, [ICMP_ECHO_REQUEST, 0]);
      Append(txPacket, n + 2, [0, 0]);
      Append(txPacket, n + 4, [0, 0]);
      assert txPacket[..n + 6] == h + [ICMP_ECHO_REQUEST, 0, 0, 0, 0, 0];
      Append(txPacket, n + 6, BeBytes(pingSeq));
      pingSeq := Next16(pingSeq);
      assert txPacket[..n] == h && txPacket[n..n + 8] == full;
      var sum := ComputeIpChecksum(txPacket[n..n + 8]);
      PutIn(txPacket, n, 8, 2, LeBytes(sum));
      assert txPacket[..n + 8] == txPacket[..n] + txPacket[n..n + 8];
    }

    /** Writes the echo request into the transmit buffer. */
    method WritePing() returns (size: nat)
      requires txPacket.Length == PKTSIZE_ALIGN
      modifies this`ipId, this`pingSeq, txPacket
      ensures ipId == Next16(old(ipId)) && pingSeq == Next16(old(pingSeq))
      ensures ETHER_HDR_SIZE <= size <= PKTSIZE_ALIGN
      ensures txPacket[..size] == EtherHeader(NULL_MAC, mac, ourVlan, PROT_IP) + PingBody(old(ipId), ip, pingIp, old(pingSeq))
    {
      var n := SetEther(txPacket, NULL_MAC, PROT_IP);
      assert txPacket[..n] == EtherHeader(NULL_MAC, mac, ourVlan, PROT_IP);
      SetIcmpHeader(n, pingIp);
      size := n + IP_ICMP_HDR_SIZE;
    }

    /** `ping_send` up to its ARP request. */
    method QueuePing(now: nat)
      requires Valid()
      modifies this, txPacket
      ensures Valid() && View() == HostModel.QueuePing(old(View()), now) && sent == old(sent)
    {
      var size := WritePing();
      waitPacketIp, waitTxSize, waitTry, waitStart := pingIp, size, 1, now;
    }

    /** `ping_send` */
    method PingSend(now: nat)
      requires Valid()
      modifies this, txPacket, arpTxPacket
      ensures Valid() && View() == HostModel.PingSend(old(View()), now)
      ensures sent == old(sent) + [RequestFrame(View())]
      ensures sent == old(sent) + [Wire.RequestOctets(old(View()), Wire.Hop(old(View()), old(pingIp)))]
    {
      Wire.PingAsks(View(), now);
      QueuePing(now);
      ArpRequest();
    }

    /** Turns the ARP request behind the link header of `n` bytes into its reply. */
    method TurnRequestRound(pkt: array<byte>, n: nat)
      requires n + ARP_HDR_SIZE <= pkt.Length
      modifies pkt
      ensures pkt[..n] == old(pkt[..n])
      ensures pkt[n..n + ARP_HDR_SIZE] == TurnedRound(old(pkt[n..n + ARP_HDR_SIZE]), mac, ip)
    {
      PutIn(pkt, n, ARP_HDR_SIZE, 6, BeBytes(ARPOP_REPLY));
      PutIn(pkt, n, ARP_HDR_SIZE, 18, pkt[n..n + ARP_HDR_SIZE][8..14]);
      PutIn(pkt, n, ARP_HDR_SIZE, 24, pkt[n..n + ARP_HDR_SIZE][14..18]);
      PutIn(pkt, n, ARP_HDR_SIZE, 8, mac);
      PutIn(pkt, n, ARP_HDR_SIZE, 14, ip);
    }

    /** The checks at the head of `arp_receive`. */
    method IsArp(pkt: array<byte>, n: nat, len: nat) returns (ok: bool)
      requires pkt.Length == PKTSIZE_ALIGN && n <= len <= pkt.Length
      ensures ok <==> ParseArp(pkt[n..len]).Some?
      ensures ok ==> var a := ParseArp(pkt[n..len]).value;
                && pkt[n..n + ARP_HDR_SIZE] == ArpBody(a) && Peek(pkt, n + 6) == a.op
                && pkt[n + 24..n + 28] == a.tpa && pkt[n + 14..n + 18] == a.spa && pkt[n + 8..n + 14] == a.sha
    {
      if len - n < ARP_HDR_SIZE {
        return false;
      }
      ghost var b := pkt[n..len];
      assert forall k :: 0 <= k < ARP_HDR_SIZE ==> b[k] == pkt[n + k];
      ok := Peek(pkt, n) == 1 && Peek(pkt, n + 2) == PROT_IP && pkt[n + 4] == 6 && pkt[n + 5] == 4;
      if ok {
        ArpParsed(b);
        assert pkt[n..n + ARP_HDR_SIZE] == b[..ARP_HDR_SIZE];
        InnerWindow(pkt, n, len, 24, 28);
        InnerWindow(pkt, n, len, 14, 18);
        InnerWindow(pkt, n, len, 8, 14);
      }
    }

    /** The waiting packet goes out to `sha`; nothing waits any more. */
    method ReleasePacket(sha: Mac)
      requires Valid() && waitPacketIp != NO_IP
      modifies this`waitPacketIp, this`waitTxSize, this`sent, txPacket
      ensures Valid() && View() == old(View()).(packet := [], waitPacketIp := NO_IP)
      ensures sent == old(sent) + [Splice(old(View()).packet, 0, sha)]
    {
      Put(txPacket, 0, sha);
      assert txPacket[..waitTxSize] == Splice(old(txPacket[..waitTxSize]), 0, sha);
      sent := sent + [txPacket[..waitTxSize]];
      waitPacketIp := NO_IP;
      waitTxSize := 0;
    }

    /** `arp_receive` on a frame of `len` bytes whose link header takes `n`. */
    method ArpReceive(pkt: array<byte>, n: nat, len: nat)
      requires Valid() && pkt.Length == PKTSIZE_ALIGN && len <= pkt.Length && pkt != txPacket
      requires HasHeader(pkt[..len]) && ProtocolOf(pkt[..len]) == PROT_ARP && n == FramingOf(pkt[..len]).Size()
      modifies this, pkt, txPacket
      ensures Valid() && View() == HostModel.ArpReceive(old(View()), old(pkt[..len])).0
      ensures sent == old(sent) + HostModel.ArpReceive(old(View()), old(pkt[..len])).1
    {
      assert sent + [] == sent;
      assert pkt[n..len] == Payload(pkt[..len]);
      var ok := IsArp(pkt, n, len);
      if !ok || ip == NO_IP || pkt[n + 24..n + 28] != ip {
        return;
      }
      var op := Peek(pkt, n + 6);
      if op == ARPOP_REQUEST {
        FrontOfRest(pkt[..], n, len, ARP_HDR_SIZE);
        AnswerArp(pkt, n, len, ParseArp(pkt[n..len]).value);
      } else if op == ARPOP_REPLY && waitPacketIp != NO_IP && pkt[n + 14..n + 18] == waitReplyIp {
        ReleasePacket(pkt[n + 8..n + 14]);
      }
    }

    /** The request branch of `arp_receive`. */
    method AnswerArp(pkt: array<byte>, n: nat, len: nat, ghost a: Arp)
      requires n + ARP_HDR_SIZE <= len <= pkt.Length == PKTSIZE_ALIGN && pkt != txPacket
      requires HasHeader(pkt[..len]) && ProtocolOf(pkt[..len]) == PROT_ARP && n == FramingOf(pkt[..len]).Size()
      requires Payload(pkt[..len])[..ARP_HDR_SIZE] == ArpBody(a) && waitTxSize <= txPacket.Length
      modifies this`sent, pkt
      ensures sent == old(sent) + [ArpAnswer(View(), old(pkt[..len]), a)]
    {
      var size := TurnHeaderRound(pkt, n, len, PROT_ARP);
      FrontOfRest(pkt[..], size, len, ARP_HDR_SIZE);
      TurnRequestRound(pkt, size);
      TurnedRoundIsReply(a, mac, ip);
      assert pkt[..size + ARP_HDR_SIZE] == pkt[..size] + pkt[size..size + ARP_HDR_SIZE];
      sent := sent + [pkt[..size + ARP_HDR_SIZE]];
    }

    /** The link header of a frame that is answered in place. */
    method TurnHeaderRound(pkt: array<byte>, n: nat, total: nat, prot: u16) returns (size: nat)
      requires total <= pkt.Length == PKTSIZE_ALIGN && pkt != txPacket && waitTxSize <= txPacket.Length
      requires HasHeader(pkt[..total]) && (ProtocolOf(pkt[..total]) == PROT_IP || ProtocolOf(pkt[..total]) == PROT_ARP)
      requires n == FramingOf(pkt[..total]).Size() && (prot == PROT_IP || prot == PROT_ARP)
      modifies pkt
      ensures size == n
      ensures pkt[..n] == AnswerHeader(View(), old(pkt[..total]), prot)
      ensures pkt[n..total] == Payload(old(pkt[..total]))
    {
      ghost var f := pkt[..total];
      assert f == pkt[0..total] && pkt[6..12] == f[6..12];
      AnswerKeepsFraming(f, f[6..12], mac, prot);
      size := UpdateEtherHeader(pkt, pkt[6..12], prot, total);
      ghost var g := pkt[..total];
      ArrayWindow(pkt, n, total);
    }

    /** The IP header of the echo reply. */
    method TurnIpHeaderRound(pkt: array<byte>, n: nat)
      requires n + IP_HDR_SIZE <= pkt.Length
      modifies pkt
      ensures pkt[..n] == old(pkt[..n]) && pkt[n + IP_HDR_SIZE..] == old(pkt[n + IP_HDR_SIZE..])
      ensures pkt[n..n + IP_HDR_SIZE] == Sealed(EchoIpHeader(old(pkt[n..n + IP_HDR_SIZE]), ip), 10)
    {
      TurnedIpHeaderIsEcho(pkt[n..n + IP_HDR_SIZE], ip);
      PutIn(pkt, n, IP_HDR_SIZE, 10, [0, 0]);
      PutIn(pkt, n, IP_HDR_SIZE, 6, [0, 0]);
      PutIn(pkt, n, IP_HDR_SIZE, 16, pkt[n..n + IP_HDR_SIZE][12..16]);
      PutIn(pkt, n, IP_HDR_SIZE, 12, ip);
      var sum := ComputeIpChecksum(pkt[n..n + IP_HDR_SIZE]);
      PutIn(pkt, n, IP_HDR_SIZE, 10, LeBytes(sum));
    }

    /** The ICMP part of the echo reply, `size` bytes in the buffer of which `len` are summed. */
    method TurnIcmpRound(pkt: array<byte>, n: nat, size: nat, len: nat)
      requires n + size <= pkt.Length && 8 <= size && len <= size <= 0x1_0000
      modifies pkt
      ensures pkt[..n] == old(pkt[..n])
      ensures pkt[n..n + size] == EchoIcmp(old(pkt[n..n + size]), len)
    {
      ghost var t := pkt[n..n + size];
      PutIn(pkt, n, size, 0, [ICMP_ECHO_REPLY]);
      PutIn(pkt, n, size, 2, [0, 0]);
      assert pkt[n..n + size] == t[0 := ICMP_ECHO_REPLY as byte][2 := 0][3 := 0];
      var sum := ComputeIpChecksum(pkt[n..n + size][..len]);
      PutIn(pkt, n, size, 2, LeBytes(sum));
    }

    /** The echo request branch of `ping_receive`; `len` is the IP packet's own length. */
    method AnswerEcho(pkt: array<byte>, n: nat, len: nat, total: nat)
      requires total <= pkt.Length == PKTSIZE_ALIGN && pkt != txPacket && waitTxSize <= txPacket.Length
      requires HasHeader(pkt[..total]) && ProtocolOf(pkt[..total]) == PROT_IP && n == FramingOf(pkt[..total]).Size()
      requires n + IP_ICMP_HDR_SIZE <= total && IP_HDR_SIZE <= len <= total - n
      modifies this`sent, pkt
      ensures sent == old(sent) + [AnswerHeader(View(), old(pkt[..total]), PROT_IP)
                                   + EchoBody(Payload(old(pkt[..total])), ip, len)[..len]]
    {
      hide AnswerHeader, EchoBody, ProtocolOf, FramingOf;
      var size := TurnHeaderRound(pkt, n, total, PROT_IP);
      TurnPacketRound(pkt, size, len, total);
      PrefixAndMore(pkt[..], size, total, len);
      assert pkt[..size + len] == pkt[..][..size + len] && pkt[..size] == pkt[..][..size];
      sent := sent + [pkt[..size + len]];
    }

    method TurnPacketRound(pkt: array<byte>, n: nat, len: nat, total: nat)
      requires n + IP_ICMP_HDR_SIZE <= total <= pkt.Length <= 0x1_0000 && IP_HDR_SIZE <= len <= total - n
      modifies pkt
      ensures pkt[..n] == old(pkt[..n])
      ensures pkt[n..total] == EchoBody(old(pkt[n..total]), ip, len)
    {
      hide Sealed, EchoIpHeader, EchoIcmp;
      var m := n + IP_HDR_SIZE;
      ghost var b0 := pkt[..];
      TwoParts(b0, n, m, total);
      TurnIpHeaderRound(pkt, n);
      ghost var b1 := pkt[..];
      assert b1[..n] == b0[..n] && b1[m..] == b0[m..];
      SameParts(b0, b1, n, m, total);
      TurnIcmpRound(pkt, m, total - m, len - IP_HDR_SIZE);
      ghost var b2 := pkt[..];
      assert b2[..m] == b1[..m];
      TwoParts(b2, n, m, total);
      SameFront(b1, b2, n, m);
    }

    /** The checks on an IP packet before it is handed on. */
    method AcceptsIp(pkt: array<byte>, n: nat, total: nat) returns (ok: bool)
      requires n <= total <= pkt.Length && Valid()
      ensures ok == IpAccepts(View(), pkt[n..total])
      ensures ok ==> n + IP_ICMP_HDR_SIZE <= total && Peek(pkt, n + 2) <= total - n
    {
      ghost var b := pkt[n..total];
      if total - n < IP_ICMP_HDR_SIZE {
        return false;
      }
      assert forall k :: 0 <= k < IP_ICMP_HDR_SIZE ==> b[k] == pkt[n + k];
      var len := Peek(pkt, n + 2);
      if total - n < len || pkt[n] / 16 != 4 || pkt[n] % 16 > 5 {
        return false;
      }
      assert b[..IP_HDR_SIZE] == pkt[n..n + IP_HDR_SIZE];
      var sum := ComputeIpChecksum(pkt[n..n + IP_HDR_SIZE]);
      if sum - sum % 2 != 0 {
        return false;
      }
      assert b[16..20] == pkt[n + 16..n + 20];
      if ip != NO_IP && pkt[n + 16..n + 20] != ip && pkt[n + 16..n + 20] != BROADCAST_IP {
        return false;
      }
      ok := Peek(pkt, n + 6) as int % 0x4000 == 0;
    }

    /** An IP packet: `receive_icmp` and `ping_receive` are all that has an effect. */
    method IpReceive(pkt: array<byte>, n: nat, total: nat)
      requires Valid() && total <= pkt.Length == PKTSIZE_ALIGN && pkt != txPacket
      requires HasHeader(pkt[..total]) && ProtocolOf(pkt[..total]) == PROT_IP && n == FramingOf(pkt[..total]).Size()
      requires Sane(pkt[..total])
      modifies this, pkt
      ensures Valid() && View() == HostModel.IpReceive(old(View()), old(pkt[..total])).0
      ensures sent == old(sent) + HostModel.IpReceive(old(View()), old(pkt[..total])).1
    {
      hide IpAccepts, AnswerHeader, EchoBody, FramingOf, ProtocolOf;
      assert sent + [] == sent;
      ghost var b := Payload(pkt[..total]);
      assert pkt[n..total] == b;
      var ok := AcceptsIp(pkt, n, total);
      if !ok {
        return;
      }
      assert forall k :: 0 <= k < IP_ICMP_HDR_SIZE ==> b[k] == pkt[n + k];
      assert b[12..16] == pkt[n + 12..n + 16];
      if pkt[n + 9] != IPPROTO_ICMP {
        return;
      }
      var kind := pkt[n + 20];
      if kind == ICMP_ECHO_REPLY {
        if pkt[n + 12..n + 16] == pingIp {
          state := Success;
        }
      } else if kind == ICMP_ECHO_REQUEST {
        var len := Peek(pkt, n + 2);
        AnswerEcho(pkt, n, len, total);
      }
    }

    /** `net_process_received_packet` on the `len` bytes received into `pkt`. */
    method ProcessReceivedPacket(pkt: array<byte>, len: nat)
      requires Valid() && len <= pkt.Length == PKTSIZE_ALIGN && pkt != txPacket && Sane(pkt[..len])
      modifies this, pkt, txPacket
      ensures Valid() && View() == Receive(old(View()), old(pkt[..len])).0
      ensures sent == old(sent) + Receive(old(View()), old(pkt[..len])).1
    {
      hide HostModel.ArpReceive, HostModel.IpReceive;
      assert sent + [] == sent;
      if len < ETHER_HDR_SIZE {
        return;
      }
      ghost var f := pkt[..len];
      assert Peek(pkt, 12) == Be16(f, 12);
      var n, vlanid, proto := 0, VLAN_NONE, Peek(pkt, 12);
      if proto < 1514 {
        proto := Peek(pkt, 20);
        n := E802_HDR_SIZE;
      } else if proto != PROT_VLAN {
        n := ETHER_HDR_SIZE;
      } else {
        if len < VLAN_ETHER_HDR_SIZE || VlanId(ourVlan) == VLAN_NONE {
          return;
        }
        vlanid := Peek(pkt, 14) as int % 0x1000;
        proto := Peek(pkt, 16);
        n := VLAN_ETHER_HDR_SIZE;
      }
      assert n == FramingOf(f).Size();
      if VlanId(ourVlan) != VLAN_NONE {
        if vlanid == VLAN_NONE {
          vlanid := VlanId(nativeVlan);
        }
        if vlanid != VlanId(ourVlan) {
          return;
        }
      }
      if len < n {
        // a short 802.2 frame: the length checks of the protocols drop it
        return;
      }
      assert proto == ProtocolOf(f);
      if proto == PROT_ARP {
        ArpReceive(pkt, n, len);
      } else if proto == PROT_IP {
        IpReceive(pkt, n, len);
      }
    }
  }
}
