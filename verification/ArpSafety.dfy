/**
 ARP and ping over a whole network of hosts that run this code. Frames may be lost (never delivered),
 repeated (delivered again) and reordered (delivered at any time). Over every run, every echo request
 that any host hands to `eth_send` is a ping it queued, goes to the owner of the address that had to
 be asked for, unchanged but for its destination, and no ping is sent twice.
 */
module ArpSafety {
  import opened Bytes
  import opened Frames
  import opened HostModel
  import opened Wire

  /** A frame handed to `eth_send`, and by whom. */
  datatype Sent = Sent(host: nat, frame: seq<byte>)

  /** The release of a waiting packet: whose, which of its queued pings, and the frame that was sent. */
  datatype Release = Release(host: nat, ping: nat, frame: seq<byte>)

  datatype Net = Net(
    hosts: seq<Host>,
    /** every frame that was ever sent, in order; any of them can arrive anywhere, any number of times */
    sent: seq<Sent>,
    /** history: the packets each host has queued, in order, and the releases */
    queued: seq<seq<seq<byte>>>,
    releases: seq<Release>
  )

  datatype Event =
    | Ping(i: nat, target: Ip, now: nat)
    | Deliver(i: nat, frame: seq<byte>)
    | Timeout(i: nat, now: nat)
    | Abort(i: nat)
    | SetState(i: nat, state: LoopState)

  ghost predicate InAir(n: Net, f: seq<byte>) {
    exists k {:trigger n.sent[k]} :: 0 <= k < |n.sent| && n.sent[k].frame == f
  }

  ghost predicate Enabled(n: Net, e: Event) {
    && e.i < |n.hosts| == |n.queued| && Ready(n.hosts[e.i])
    && match e
       case Ping(i, target, _) => target != NO_IP && n.hosts[i].ip != NO_IP
       case Deliver(_, f) => InAir(n, f) && Sane(f)
       case Timeout(i, now) => n.hosts[i].waitPacketIp != NO_IP && n.hosts[i].waitStart <= now
       case Abort(_) => true
       case SetState(_, _) => true
  }

  /** The frames `out`, sent by host `i`. */
  function By(i: nat, out: seq<seq<byte>>): (s: seq<Sent>)
    ensures |s| == |out| && forall k {:trigger s[k]} :: 0 <= k < |s| ==> s[k] == Sent(i, out[k])
  {
    if out == [] then [] else [Sent(i, out[0])] + By(i, out[1..])
  }

  /** Delivery of `f` makes host `h` send the packet it has queued. */
  predicate ReleasesPacket(h: Host, f: seq<byte>)
    requires Ready(h) && Sane(f)
  {
    h.waitPacketIp != NO_IP && Receive(h, f).0.waitPacketIp == NO_IP
  }

  function Apply(n: Net, e: Event): Net
    requires Enabled(n, e)
  {
    var h := n.hosts[e.i];
    match e
    case Ping(i, target, now) =>
      var g := PingSend(h.(pingIp := target), now);
      n.(hosts := n.hosts[i := g], sent := n.sent + By(i, [RequestFrame(g)]),
         queued := n.queued[i := n.queued[i] + [g.packet]])
    case Deliver(i, f) =>
      var (g, out) := Receive(h, f);
      n.(hosts := n.hosts[i := g], sent := n.sent + By(i, out),
         releases := n.releases + if ReleasesPacket(h, f) && n.queued[i] != [] && out != []
                                  then [Release(i, |n.queued[i]| - 1, out[0])] else [])
    case Timeout(i, now) =>
      var (g, out) := ArpTimeout(h, now);
      n.(hosts := n.hosts[i := g], sent := n.sent + By(i, out))
    case Abort(i) => n.(hosts := n.hosts[i := h.(waitPacketIp := NO_IP)])
    case SetState(i, s) => n.(hosts := n.hosts[i := h.(state := s)])
  }

  // What is sent

  /** The echo requests among what was sent, in order. */
  function EchoRequests(s: seq<Sent>): seq<Sent> {
    if s == [] then []
    else EchoRequests(s[..|s| - 1]) + if IsEchoRequest(s[|s| - 1].frame) then [s[|s| - 1]] else []
  }

  /** What the releases sent, in order. */
  function Transmissions(rs: seq<Release>): (s: seq<Sent>)
    ensures |s| == |rs| && forall k {:trigger s[k]} {:trigger rs[k]} :: 0 <= k < |s| ==> s[k] == Sent(rs[k].host, rs[k].frame)
  {
    if rs == [] then [] else Transmissions(rs[..|rs| - 1]) + [Sent(rs[|rs| - 1].host, rs[|rs| - 1].frame)]
  }

  /** How many of the frames host `i` sent. */
  function CountBy(s: seq<Sent>, i: nat): nat {
    if s == [] then 0 else CountBy(s[..|s| - 1], i) + if s[|s| - 1].host == i then 1 else 0
  }

  lemma EchoRequestsSnoc(s: seq<Sent>, t: Sent)
    ensures EchoRequests(s + [t]) == EchoRequests(s) + if IsEchoRequest(t.frame) then [t] else []
  {
    assert (s + [t])[..|s|] == s;
  }

  lemma TransmissionsSnoc(rs: seq<Release>, r: Release)
    ensures Transmissions(rs + [r]) == Transmissions(rs) + [Sent(r.host, r.frame)]
  {
    assert (rs + [r])[..|rs|] == rs;
  }

  lemma CountBySnoc(s: seq<Sent>, t: Sent, i: nat)
    ensures CountBy(s + [t], i) == CountBy(s, i) + if t.host == i then 1 else 0
  {
    assert (s + [t])[..|s|] == s;
  }

  /** Frames that are no echo requests add none. */
  lemma {:induction false} NoEchoRequests(s: seq<Sent>, i: nat, out: seq<seq<byte>>)
    requires forall o :: o in out ==> !IsEchoRequest(o)
    ensures EchoRequests(s + By(i, out)) == EchoRequests(s)
    decreases |out|
  {
    if out == [] {
      assert s + By(i, out) == s;
    } else {
      var first := Sent(i, out[0]);
      EchoRequestsSnoc(s, first);
      NoEchoRequests(s + [first], i, out[1..]);
      assert s + By(i, out) == s + [first] + By(i, out[1..]);
    }
  }

  /** Every echo request that was sent is among the echo requests. */
  lemma {:induction false} EchoRequestsHas(s: seq<Sent>, k: nat)
    requires k < |s| && IsEchoRequest(s[k].frame)
    ensures s[k] in EchoRequests(s)
    decreases |s|
  {
    if k < |s| - 1 {
      EchoRequestsHas(s[..|s| - 1], k);
    }
  }

  // The invariant

  /** What a host is by configuration stays what it was. */
  predicate SameHost(h: Host, g: Host) {
    g.ip == h.ip && g.mac == h.mac && g.gateway == h.gateway && g.netmask == h.netmask
  }

  ghost predicate SameHosts(hs: seq<Host>, gs: seq<Host>) {
    |hs| == |gs| && forall i {:trigger gs[i]} :: 0 <= i < |gs| ==> SameHost(hs[i], gs[i])
  }

  predicate SaysReply(f: seq<byte>) {
    && HasHeader(f) && ProtocolOf(f) == PROT_ARP
    && ParseArp(Payload(f)).Some? && ParseArp(Payload(f)).value.op == ARPOP_REPLY
  }

  ghost predicate Owns(hosts: seq<Host>, j: nat, ip: Ip, mac: Mac) {
    j < |hosts| && hosts[j].ip == ip && hosts[j].mac == mac
  }

  /** A frame that, if it is IP, does not claim to be shorter than its own header. */
  predicate IsLongEnough(f: seq<byte>) {
    HasHeader(f) && ProtocolOf(f) == PROT_IP && |Payload(f)| >= IP_ICMP_HDR_SIZE ==> Be16(Payload(f), 2) >= IP_HDR_SIZE
  }

  /** An ARP reply tells the truth about a host of the network. */
  ghost predicate Honest(hosts: seq<Host>, f: seq<byte>) {
    && IsLongEnough(f)
    && (SaysReply(f) ==>
      var a := ParseArp(Payload(f)).value; exists j {:trigger Owns(hosts, j, a.spa, a.sha)} :: Owns(hosts, j, a.spa, a.sha))
  }

  ghost predicate DistinctIps(hosts: seq<Host>) {
    forall i, j {:trigger hosts[i], hosts[j]} :: 0 <= i < j < |hosts| ==> hosts[i].ip != hosts[j].ip
  }

  /** An echo request for `dst` of sane length. */
  predicate IsPingTo(f: seq<byte>, dst: Ip) {
    IsEchoRequest(f) && IsLongEnough(f) && DestinationOf(f) == dst
  }

  /** A waiting packet is the one queued last, and the address asked for is the one its destination needs. */
  ghost predicate Waiting(h: Host, qs: seq<seq<byte>>) {
    && Ready(h)
    && (h.waitPacketIp != NO_IP ==>
      && qs != [] && h.packet == qs[|qs| - 1]
      && IsPingTo(h.packet, h.waitPacketIp) && h.waitReplyIp == Hop(h, h.waitPacketIp))
  }

  /**
   The release went to the one host that owns the address its host has to ask for to reach the
   packet's own destination, and it is the packet that was queued but for its link destination.
   */
  ghost predicate Sound(hosts: seq<Host>, queued: seq<seq<seq<byte>>>, r: Release) {
    && r.host < |hosts| == |queued| && r.ping < |queued[r.host]|
    && var q := queued[r.host][r.ping];
    && IsEchoRequest(q) && IsEchoRequest(r.frame) && DestinationOf(r.frame) == DestinationOf(q)
    && var hop := Hop(hosts[r.host], DestinationOf(q));
    && (exists j {:trigger hosts[j]} :: 0 <= j < |hosts| && hosts[j].ip == hop)
    && (forall j {:trigger hosts[j]} :: 0 <= j < |hosts| && hosts[j].ip == hop ==> r.frame == Splice(q, 0, hosts[j].mac))
  }

  /** No ping is released twice, and the one that still waits has not been. */
  ghost predicate OncePerPing(n: Net)
    requires |n.hosts| == |n.queued|
  {
    && (forall k {:trigger n.releases[k]} :: 0 <= k < |n.releases| ==> Spent(n, n.releases[k]))
    && (forall k, l {:trigger n.releases[k], n.releases[l]} :: 0 <= k < l < |n.releases| ==>
      n.releases[k].host != n.releases[l].host || n.releases[k].ping != n.releases[l].ping)
  }

  ghost predicate Spent(n: Net, r: Release)
    requires |n.hosts| == |n.queued|
  {
    && r.host < |n.hosts| && r.ping < |n.queued[r.host]|
    && (n.hosts[r.host].waitPacketIp != NO_IP ==> r.ping + 1 < |n.queued[r.host]|)
  }

  /** No host has sent more echo requests than it has queued and no longer keeps waiting. */
  ghost predicate Balanced(n: Net, i: nat)
    requires i < |n.hosts| == |n.queued|
  {
    CountBy(Transmissions(n.releases), i) + (if n.hosts[i].waitPacketIp != NO_IP then 1 else 0) <= |n.queued[i]|
  }

  ghost predicate AllWaiting(n: Net) {
    |n.hosts| == |n.queued|
    && forall i {:trigger n.hosts[i]} {:trigger n.queued[i]} :: 0 <= i < |n.hosts| ==> Waiting(n.hosts[i], n.queued[i])
  }

  ghost predicate AllBalanced(n: Net)
    requires |n.hosts| == |n.queued|
  {
    forall i: nat {:trigger Balanced(n, i)} :: i < |n.hosts| ==> Balanced(n, i)
  }

  ghost predicate AllHonest(n: Net) {
    forall k {:trigger n.sent[k]} :: 0 <= k < |n.sent| ==> Honest(n.hosts, n.sent[k].frame)
  }

  ghost predicate AllSound(n: Net) {
    forall k {:trigger n.releases[k]} :: 0 <= k < |n.releases| ==> Sound(n.hosts, n.queued, n.releases[k])
  }

  ghost predicate Inv(n: Net) {
    && AllWaiting(n) && DistinctIps(n.hosts) && AllBalanced(n) && AllHonest(n) && AllSound(n) && OncePerPing(n)
    && EchoRequests(n.sent) == Transmissions(n.releases)
  }

  // What a host does

  lemma {:induction false} EchoIsNoRequest(h: Host, f: seq<byte>)
    requires IsEchoRequest(f) && IpAccepts(h, Payload(f)) && Sane(f)
    ensures var r := EchoAnswer(h, f); HasHeader(r) && ProtocolOf(r) == PROT_IP && !IsEchoRequest(r) && IsLongEnough(r)
  {
    hide AnswerHeader;
    var b := Payload(f);
    var len := Be16(b, 2);
    var r := EchoBody(b, h.ip, len);
    AnswerHeaderFields(h, f, PROT_IP, r[..len]);
    assert r[2] == b[2] && r[3] == b[3];
    assert len > 20 ==> r[..len][20] == ICMP_ECHO_REPLY;
  }

  /**
   A host's own answers tell the truth about it and are no echo requests, unless it releases its
   packet; and nothing it receives changes who it is.
   */
  lemma ReceiveIsHonest(h: Host, f: seq<byte>)
    requires Ready(h) && Sane(f)
    ensures var (g, out) := Receive(h, f);
            && SameHost(h, g) && g.waitReplyIp == h.waitReplyIp
            && (!ReleasesPacket(h, f) ==>
              && g.waitPacketIp == h.waitPacketIp && g.packet == h.packet
              && (forall o :: o in out ==> Honest([h], o) && !IsEchoRequest(o)))
  {
    hide AnswerHeader, ArpBody, EchoBody;
    if HasHeader(f) && VlanAccepts(f, h.ourVlan, h.nativeVlan) {
      if ProtocolOf(f) == PROT_ARP && ParseArp(Payload(f)).Some? {
        var a := ParseArp(Payload(f)).value;
        var r := Arp(ARPOP_REPLY, h.mac, h.ip, a.sha, a.spa);
        AnswerHeaderFields(h, f, PROT_ARP, ArpBody(r));
        ArpRoundTrip(r, []);
        assert ArpBody(r) + [] == ArpBody(r);
        assert Owns([h], 0, h.ip, h.mac);
      } else if IsEchoRequest(f) && IpAccepts(h, Payload(f)) {
        EchoIsNoRequest(h, f);
      }
    }
  }

  /** A release is of the waiting packet, on the word of a reply from the address asked for. */
  lemma ReleaseFollowsReply(h: Host, f: seq<byte>)
    requires Ready(h) && Sane(f) && ReleasesPacket(h, f)
    ensures SaysReply(f)
    ensures var (g, out), a := Receive(h, f), ParseArp(Payload(f)).value;
            && a.spa == h.waitReplyIp && out == [Splice(h.packet, 0, a.sha)]
            && SameHost(h, g) && h.waitPacketIp != NO_IP && g.waitPacketIp == NO_IP
  {
  }

  lemma RequestIsHonest(h: Host, hosts: seq<Host>)
    ensures Honest(hosts, RequestFrame(h)) && !IsEchoRequest(RequestFrame(h))
  {
    var q := Arp(ARPOP_REQUEST, h.mac, h.ip, NULL_MAC, h.waitReplyIp);
    BuiltIsReceived(BROADCAST_MAC, h.mac, h.ourVlan, PROT_ARP, ArpBody(q), 0, 0);
    ArpRoundTrip(q, []);
    assert ArpBody(q) + [] == ArpBody(q);
  }

  /** Only the link destination of a released packet is new. */
  lemma ReleasedIsPing(queued: seq<byte>, mac: Mac)
    requires IsEchoRequest(queued)
    ensures var g := Splice(queued, 0, mac);
         IsEchoRequest(g) && DestinationOf(g) == DestinationOf(queued) && (IsLongEnough(queued) ==> IsLongEnough(g))
  {
    var g := Splice(queued, 0, mac);
    assert Payload(g) == Payload(queued);
  }

  lemma QueuedIsPing(h: Host, now: nat)
    ensures IsPingTo(PingSend(h, now).packet, h.pingIp)
  {
    var body := PingBody(h.ipId, h.ip, h.pingIp, h.pingSeq);
    BuiltIsReceived(NULL_MAC, h.mac, h.ourVlan, PROT_IP, body, 0, 0);
    PingFields(h.ipId, h.ip, h.pingIp, h.pingSeq);
  }

  lemma PingFields(id: u16, src: Ip, dst: Ip, seqno: u16)
    ensures var b := PingBody(id, src, dst, seqno);
         Be16(b, 2) == IP_ICMP_HDR_SIZE && b[9] == IPPROTO_ICMP && b[20] == ICMP_ECHO_REQUEST && b[16..20] == dst
  {
    var b := PingBody(id, src, dst, seqno);
    assert b[2..4] == BeBytes(IP_ICMP_HDR_SIZE);
    Be16OfBytes(b, 2, IP_ICMP_HDR_SIZE);
    assert b[16..20] == dst;
  }

  // Every event keeps the invariant

  /** What is said honestly about some hosts is so about the same hosts later. */
  lemma HonestStays(hs: seq<Host>, gs: seq<Host>, f: seq<byte>)
    requires SameHosts(hs, gs) && Honest(hs, f)
    ensures Honest(gs, f)
  {
    if SaysReply(f) {
      var a := ParseArp(Payload(f)).value;
      var j :| Owns(hs, j, a.spa, a.sha);
      assert Owns(gs, j, a.spa, a.sha);
    }
  }

  lemma HonestAboutSelf(hosts: seq<Host>, i: nat, f: seq<byte>)
    requires i < |hosts| && Honest([hosts[i]], f)
    ensures Honest(hosts, f)
  {
    if SaysReply(f) {
      var a := ParseArp(Payload(f)).value;
      var j :| Owns([hosts[i]], j, a.spa, a.sha);
      assert Owns(hosts, i, a.spa, a.sha);
    }
  }

  /** The way to an address is a matter of configuration. */
  lemma SameHop(h: Host, g: Host, dst: Ip)
    requires SameHost(h, g)
    ensures Hop(h, dst) == Hop(g, dst) && (GoesByGateway(h, dst) <==> GoesByGateway(g, dst))
  {
    hide BitDiffers;
  }

  lemma SoundStays(hs: seq<Host>, gs: seq<Host>, qs: seq<seq<seq<byte>>>, ps: seq<seq<seq<byte>>>, r: Release)
    requires SameHosts(hs, gs) && Sound(hs, qs, r) && |ps| == |qs| && qs[r.host] <= ps[r.host]
    ensures Sound(gs, ps, r)
  {
    hide GoesByGateway, IsEchoRequest;
    SameHop(hs[r.host], gs[r.host], DestinationOf(qs[r.host][r.ping]));
    var hop := Hop(hs[r.host], DestinationOf(qs[r.host][r.ping]));
    var j :| 0 <= j < |hs| && hs[j].ip == hop;
    assert gs[j].ip == hop;
  }

  /** From `n` to `m` only host `i` changed, and sent `out`. */
  ghost predicate Kept(n: Net, m: Net, i: nat, out: seq<seq<byte>>) {
    && SameHosts(n.hosts, m.hosts) && i < |m.hosts| == |m.queued| == |n.queued|
    && (forall k {:trigger m.hosts[k]} {:trigger m.queued[k]} :: 0 <= k < |m.hosts| && k != i ==>
      m.hosts[k] == n.hosts[k] && m.queued[k] == n.queued[k])
    && n.queued[i] <= m.queued[i] && Waiting(m.hosts[i], m.queued[i])
    && m.sent == n.sent + By(i, out) && (forall o :: o in out ==> Honest(m.hosts, o))
  }

  lemma WaitingStays(n: Net, m: Net, i: nat, out: seq<seq<byte>>)
    requires AllWaiting(n) && DistinctIps(n.hosts) && Kept(n, m, i, out)
    ensures AllWaiting(m) && DistinctIps(m.hosts)
  {
    hide Waiting, Honest;
  }

  lemma SentIsHonest(n: Net, m: Net, i: nat, out: seq<seq<byte>>)
    requires AllHonest(n) && Kept(n, m, i, out)
    ensures AllHonest(m)
  {
    hide Honest, Waiting;
    forall k | 0 <= k < |m.sent|
      ensures Honest(m.hosts, m.sent[k].frame)
    {
      if k < |n.sent| {
        HonestStays(n.hosts, m.hosts, n.sent[k].frame);
      } else {
        assert m.sent[k].frame == out[k - |n.sent|];
      }
    }
  }

  lemma OldReleasesStay(n: Net, m: Net, i: nat, out: seq<seq<byte>>)
    requires AllSound(n) && |n.hosts| == |n.queued| && OncePerPing(n) && Kept(n, m, i, out)
    requires |m.queued[i]| > |n.queued[i]| || (m.hosts[i].waitPacketIp != NO_IP ==> n.hosts[i].waitPacketIp != NO_IP)
    ensures forall k {:trigger n.releases[k]} :: 0 <= k < |n.releases| ==>
              Sound(m.hosts, m.queued, n.releases[k]) && Spent(m, n.releases[k])
  {
    hide Honest, Waiting, Sound;
    forall k | 0 <= k < |n.releases|
      ensures Sound(m.hosts, m.queued, n.releases[k]) && Spent(m, n.releases[k])
    {
      var r := n.releases[k];
      assert Spent(n, r);
      assert n.queued[r.host] <= m.queued[r.host];
      SoundStays(n.hosts, m.hosts, n.queued, m.queued, r);
    }
  }

  lemma BalanceStays(n: Net, m: Net, i: nat, out: seq<seq<byte>>)
    requires |n.hosts| == |n.queued| && AllBalanced(n) && Kept(n, m, i, out) && m.releases == n.releases
    requires |m.queued[i]| > |n.queued[i]| || (m.hosts[i].waitPacketIp != NO_IP ==> n.hosts[i].waitPacketIp != NO_IP)
    ensures AllBalanced(m)
  {
    hide Honest, Waiting;
    forall k: nat | k < |m.hosts|
      ensures Balanced(m, k)
    {
      assert Balanced(n, k);
    }
  }

  /** An event that releases nothing keeps the invariant if its host keeps its part. */
  lemma KeptWithoutRelease(n: Net, m: Net, i: nat, out: seq<seq<byte>>)
    requires Inv(n) && Kept(n, m, i, out) && m.releases == n.releases
    requires forall o :: o in out ==> !IsEchoRequest(o)
    requires |m.queued[i]| > |n.queued[i]| || (m.hosts[i].waitPacketIp != NO_IP ==> n.hosts[i].waitPacketIp != NO_IP)
    ensures Inv(m)
  {
    WaitingStays(n, m, i, out);
    SentIsHonest(n, m, i, out);
    BalanceStays(n, m, i, out);
    OldReleasesStay(n, m, i, out);
    NoEchoRequests(n.sent, i, out);
    hide AllWaiting, AllHonest, AllBalanced, DistinctIps, Waiting, Honest, Sound, Spent;
  }

  /** Host `r.host` releases the packet it queued last, and nothing waits any more. */
  ghost predicate Spends(n: Net, m: Net, r: Release) {
    && r.host < |n.hosts| == |m.hosts| == |n.queued| && m.queued == n.queued && m.releases == n.releases + [r]
    && (forall k {:trigger m.hosts[k]} :: 0 <= k < |m.hosts| && k != r.host ==> m.hosts[k] == n.hosts[k])
    && n.hosts[r.host].waitPacketIp != NO_IP && m.hosts[r.host].waitPacketIp == NO_IP
    && r.ping + 1 == |n.queued[r.host]|
  }

  lemma StaysBalanced(n: Net, m: Net, r: Release, k: nat)
    requires Spends(n, m, r) && k < |m.hosts| && Balanced(n, k)
    ensures Balanced(m, k)
  {
    TransmissionsSnoc(n.releases, r);
    CountBySnoc(Transmissions(n.releases), Sent(r.host, r.frame), k);
  }

  lemma SpendOnce(n: Net, m: Net, r: Release)
    requires Spends(n, m, r) && OncePerPing(n)
    ensures OncePerPing(m)
  {
    forall k | 0 <= k < |n.releases|
      ensures Spent(m, m.releases[k])
      ensures m.releases[k] == n.releases[k]
      ensures m.releases[k].host != r.host || m.releases[k].ping != r.ping
    {
      assert Spent(n, n.releases[k]);
    }
  }

  lemma ReleaseIsRight(n: Net, m: Net, i: nat, r: Release)
    requires AllSound(n) && Kept(n, m, i, [r.frame]) && Spends(n, m, r) && r.host == i && OncePerPing(n)
    requires Sound(n.hosts, n.queued, r)
    ensures AllSound(m)
  {
    OldReleasesStay(n, m, i, [r.frame]);
    SoundStays(n.hosts, m.hosts, n.queued, m.queued, r);
    hide Honest, Waiting, Sound, OncePerPing;
    forall k | 0 <= k < |m.releases|
      ensures Sound(m.hosts, m.queued, m.releases[k])
    {
      assert k < |n.releases| ==> m.releases[k] == n.releases[k];
    }
  }

  /** A sound release of the packet that waits keeps it, too. */
  lemma KeptWithRelease(n: Net, m: Net, i: nat, r: Release)
    requires Inv(n) && Kept(n, m, i, [r.frame]) && Spends(n, m, r) && r.host == i && Sound(n.hosts, n.queued, r)
    ensures Inv(m)
  {
    WaitingStays(n, m, i, [r.frame]);
    SentIsHonest(n, m, i, [r.frame]);
    ReleaseIsRight(n, m, i, r);
    SpendOnce(n, m, r);
    AppendedEcho(n, m, i, r);
    forall k: nat | k < |m.hosts|
      ensures Balanced(m, k)
    {
      StaysBalanced(n, m, r, k);
    }
    hide AllWaiting, AllHonest, AllSound, OncePerPing, DistinctIps, Waiting, Honest, Sound, Balanced;
  }

  lemma AppendedEcho(n: Net, m: Net, i: nat, r: Release)
    requires EchoRequests(n.sent) == Transmissions(n.releases) && IsEchoRequest(r.frame) && r.host == i
    requires m.sent == n.sent + By(i, [r.frame]) && m.releases == n.releases + [r]
    ensures EchoRequests(m.sent) == Transmissions(m.releases)
  {
    assert By(i, [r.frame]) == [Sent(i, r.frame)];
    EchoRequestsSnoc(n.sent, Sent(i, r.frame));
    TransmissionsSnoc(n.releases, r);
  }

  lemma HostsPart(n: Net, i: nat)
    requires Inv(n) && i < |n.hosts|
    ensures |n.queued| == |n.hosts| && Waiting(n.hosts[i], n.queued[i])
  {
    hide Waiting, AllHonest, AllSound, OncePerPing, AllBalanced;
  }

  /** Host `i` becomes `g`, with the packets `q` queued so far, and sends `out`. */
  lemma OneHostChanges(n: Net, m: Net, i: nat, g: Host, q: seq<seq<byte>>, out: seq<seq<byte>>)
    requires i < |n.hosts| == |n.queued| && m.hosts == n.hosts[i := g] && m.queued == n.queued[i := q]
    requires m.sent == n.sent + By(i, out) && SameHost(n.hosts[i], g) && n.queued[i] <= q && Waiting(g, q)
    requires forall o :: o in out ==> Honest(m.hosts, o)
    ensures Kept(n, m, i, out)
  {
    hide Honest, Waiting;
  }

  lemma PingKeeps(n: Net, i: nat, target: Ip, now: nat)
    requires Inv(n) && Enabled(n, Ping(i, target, now))
    ensures Inv(Apply(n, Ping(i, target, now)))
  {
    hide Inv, Kept, Honest, IsPingTo;
    var h := n.hosts[i].(pingIp := target);
    var g := PingSend(h, now);
    var m := Apply(n, Ping(i, target, now));
    var q := n.queued[i] + [g.packet];
    QueuedIsPing(h, now);
    HopIsByBits(h, h.pingIp);
    RequestIsHonest(g, m.hosts);
    OneHostChanges(n, m, i, g, q, [RequestFrame(g)]);
    KeptWithoutRelease(n, m, i, [RequestFrame(g)]);
  }

  /** A timeout changes nothing about what waits, and sends no more than the request. */
  lemma TimeoutWaits(h: Host, now: nat)
    requires Ready(h) && h.waitPacketIp != NO_IP && h.waitStart <= now
    ensures var (g, out) := ArpTimeout(h, now);
         && SameHost(h, g) && g.packet == h.packet && g.waitPacketIp == h.waitPacketIp
         && (h.waitReplyIp == Hop(h, h.waitPacketIp) ==> g.waitReplyIp == Hop(g, g.waitPacketIp))
         && (out == [] || out == [RequestFrame(g)])
  {
    HopIsByBits(h, h.waitPacketIp);
    SameHop(h, ArpTimeout(h, now).0, h.waitPacketIp);
    hide GoesByGateway;
  }

  lemma TimeoutKeeps(n: Net, i: nat, now: nat)
    requires Inv(n) && Enabled(n, Timeout(i, now))
    ensures Inv(Apply(n, Timeout(i, now)))
  {
    TimeoutWaits(n.hosts[i], now);
    hide Inv, Kept, Honest, IsPingTo, ArpTimeout, Hop, RequestFrame;
    var (g, out) := ArpTimeout(n.hosts[i], now);
    var m := Apply(n, Timeout(i, now));
    HostsPart(n, i);
    RequestIsHonest(g, m.hosts);
    OneHostChanges(n, m, i, g, n.queued[i], out);
    KeptWithoutRelease(n, m, i, out);
  }

  lemma QuietKeeps(n: Net, e: Event)
    requires Inv(n) && Enabled(n, e) && (e.Abort? || e.SetState?)
    ensures Inv(Apply(n, e))
  {
    hide Inv, Kept, Honest, IsPingTo;
    var m := Apply(n, e);
    HostsPart(n, e.i);
    assert m.sent == n.sent + By(e.i, []);
    OneHostChanges(n, m, e.i, m.hosts[e.i], n.queued[e.i], []);
    KeptWithoutRelease(n, m, e.i, []);
  }

  lemma DeliverKeeps(n: Net, i: nat, f: seq<byte>)
    requires Inv(n) && Enabled(n, Deliver(i, f)) && !ReleasesPacket(n.hosts[i], f)
    ensures Inv(Apply(n, Deliver(i, f)))
  {
    var h := n.hosts[i];
    ReceiveIsHonest(h, f);
    hide Inv, Kept, Honest, IsPingTo, Receive, ReleasesPacket;
    var (g, out) := Receive(h, f);
    var m := Apply(n, Deliver(i, f));
    HostsPart(n, i);
    forall o | o in out
      ensures Honest(m.hosts, o)
    {
      HonestAboutSelf(n.hosts, i, o);
      HonestStays(n.hosts, m.hosts, o);
    }
    OneHostChanges(n, m, i, g, n.queued[i], out);
    KeptWithoutRelease(n, m, i, out);
  }

  /** What a truthful reply from the address asked for makes of the packet that waits. */
  lemma ReplyIsSound(hosts: seq<Host>, queued: seq<seq<seq<byte>>>, i: nat, a: Arp)
    requires i < |hosts| == |queued| && DistinctIps(hosts)
    requires Waiting(hosts[i], queued[i]) && hosts[i].waitPacketIp != NO_IP && a.spa == hosts[i].waitReplyIp
    requires exists j {:trigger Owns(hosts, j, a.spa, a.sha)} :: Owns(hosts, j, a.spa, a.sha)
    ensures var q := hosts[i].packet;
         && |q| >= 6 && queued[i] != [] && IsPingTo(Splice(q, 0, a.sha), hosts[i].waitPacketIp)
         && Sound(hosts, queued, Release(i, |queued[i]| - 1, Splice(q, 0, a.sha)))
  {
    hide GoesByGateway;
    var j :| Owns(hosts, j, a.spa, a.sha);
    ReleasedIsPing(hosts[i].packet, a.sha);
    hide IsEchoRequest, IsLongEnough;
  }

  /** A frame of the network that releases a packet is a truthful reply. */
  lemma ReplyIsHonest(n: Net, f: seq<byte>)
    requires Inv(n) && InAir(n, f) && SaysReply(f)
    ensures DistinctIps(n.hosts)
    ensures var a := ParseArp(Payload(f)).value;
         exists j {:trigger Owns(n.hosts, j, a.spa, a.sha)} :: Owns(n.hosts, j, a.spa, a.sha)
  {
    hide AllWaiting, AllBalanced, OncePerPing, AllSound;
    var k :| 0 <= k < |n.sent| && n.sent[k].frame == f;
    assert Honest(n.hosts, n.sent[k].frame);
  }

  lemma ApplyRelease(n: Net, i: nat, f: seq<byte>, frame: seq<byte>)
    requires Enabled(n, Deliver(i, f)) && ReleasesPacket(n.hosts[i], f) && n.queued[i] != []
    requires Receive(n.hosts[i], f).1 == [frame]
    ensures Apply(n, Deliver(i, f)) == n.(hosts := n.hosts[i := Receive(n.hosts[i], f).0], sent := n.sent + By(i, [frame]),
                                          releases := n.releases + [Release(i, |n.queued[i]| - 1, frame)])
  {
    hide Receive, ReleasesPacket;
  }

  /** What is sent on a release, and what becomes of the host. */
  lemma ReleaseIsSound(n: Net, i: nat, f: seq<byte>) returns (r: Release)
    requires Inv(n) && Enabled(n, Deliver(i, f)) && ReleasesPacket(n.hosts[i], f)
    ensures r.host == i && r.ping + 1 == |n.queued[i]| && Sound(n.hosts, n.queued, r) && Honest(n.hosts, r.frame)
    ensures var h, (g, out) := n.hosts[i], Receive(n.hosts[i], f);
         out == [r.frame] && SameHost(h, g) && h.waitPacketIp != NO_IP && g.waitPacketIp == NO_IP
  {
    hide Inv, Honest, IsPingTo, Receive, ReleasesPacket, Sound, SaysReply, ParseArp, Waiting, GoesByGateway, Sane, IsEchoRequest;
    ReleaseFollowsReply(n.hosts[i], f);
    HostsPart(n, i);
    ReplyIsHonest(n, f);
    var a := ParseArp(Payload(f)).value;
    ReplyIsSound(n.hosts, n.queued, i, a);
    r := Release(i, |n.queued[i]| - 1, Splice(n.hosts[i].packet, 0, a.sha));
    PingIsHonest(r.frame, n.hosts[i].waitPacketIp, n.hosts);
  }

  lemma ReleaseKeeps(n: Net, i: nat, f: seq<byte>)
    requires Inv(n) && Enabled(n, Deliver(i, f)) && ReleasesPacket(n.hosts[i], f)
    ensures Inv(Apply(n, Deliver(i, f)))
  {
    hide Inv, Kept, Honest, Receive, ReleasesPacket, Sound, Apply;
    var r := ReleaseIsSound(n, i, f);
    ApplyRelease(n, i, f, r.frame);
    var m, g := Apply(n, Deliver(i, f)), Receive(n.hosts[i], f).0;
    HostsPart(n, i);
    HonestStays(n.hosts, m.hosts, r.frame);
    OneHostChanges(n, m, i, g, n.queued[i], [r.frame]);
    KeptWithRelease(n, m, i, r);
  }

  lemma PingIsHonest(f: seq<byte>, dst: Ip, hosts: seq<Host>)
    requires IsPingTo(f, dst)
    ensures Honest(hosts, f)
  {
  }

  /** Every event keeps the invariant. */
  lemma {:induction false} StepKeeps(n: Net, e: Event)
    requires Inv(n) && Enabled(n, e)
    ensures Inv(Apply(n, e))
  {
    hide Inv, Apply;
    match e
    case Ping(i, target, now) => PingKeeps(n, i, target, now);
    case Deliver(i, f) =>
      if ReleasesPacket(n.hosts[i], f) { ReleaseKeeps(n, i, f); } else { DeliverKeeps(n, i, f); }
    case Timeout(i, now) => TimeoutKeeps(n, i, now);
    case Abort(_) => QuietKeeps(n, e);
    case SetState(_, _) => QuietKeeps(n, e);
  }

  // Runs

  /** A network in which nothing has been sent or queued yet. */
  ghost predicate Start(n: Net) {
    && |n.hosts| == |n.queued| && DistinctIps(n.hosts) && n.sent == [] && n.releases == []
    && (forall i {:trigger n.hosts[i]} {:trigger n.queued[i]} :: 0 <= i < |n.hosts| ==>
      n.queued[i] == [] && Ready(n.hosts[i]) && n.hosts[i].waitPacketIp == NO_IP)
  }

  /** `run` is a run of the network through the states `n`. */
  ghost predicate IsRun(n: seq<Net>, run: seq<Event>) {
    && |n| == |run| + 1 && Start(n[0])
    && (forall k {:trigger run[k]} :: 0 <= k < |run| ==> Enabled(n[k], run[k]) && n[k + 1] == Apply(n[k], run[k]))
  }

  lemma StartIsGood(n: Net)
    requires Start(n)
    ensures Inv(n)
  {
    forall i: nat | i < |n.hosts|
      ensures Balanced(n, i)
    {
      assert n.queued[i] == [];
    }
  }

  lemma {:induction false} RunKeeps(n: seq<Net>, run: seq<Event>, k: nat)
    requires IsRun(n, run) && k <= |run|
    ensures Inv(n[k])
  {
    hide Inv, Apply;
    if k == 0 {
      StartIsGood(n[0]);
    } else {
      RunKeeps(n, run, k - 1);
      StepKeeps(n[k - 1], run[k - 1]);
    }
  }

  /** How many pings host `i` was told to send. */
  function PingEvents(run: seq<Event>, i: nat): nat {
    if run == [] then 0
    else PingEvents(run[..|run| - 1], i) + if run[|run| - 1].Ping? && run[|run| - 1].i == i then 1 else 0
  }

  lemma {:induction false} OneQueuedPerPing(n: seq<Net>, run: seq<Event>, k: nat, i: nat)
    requires IsRun(n, run) && k <= |run| && i < |n[0].hosts|
    ensures |n[k].hosts| == |n[k].queued| == |n[0].hosts| && |n[k].queued[i]| == PingEvents(run[..k], i)
  {
    hide Receive, ArpTimeout, PingSend, ReleasesPacket, Ready, IsEchoRequest;
    if k > 0 {
      OneQueuedPerPing(n, run, k - 1, i);
      assert run[..k][..k - 1] == run[..k - 1] && n[k] == Apply(n[k - 1], run[k - 1]);
    }
  }

  /**
   Over every run: the echo requests that were sent are, in order, those of the releases; each went to
   the owner of the address its host has to ask for to reach the packet's destination, as it was queued
   but for the link destination; and no ping of a host was released twice.
   */
  lemma {:induction false} ReleasesAreSound(n: seq<Net>, run: seq<Event>, k: nat)
    requires IsRun(n, run) && k <= |run|
    ensures EchoRequests(n[k].sent) == Transmissions(n[k].releases)
    ensures forall a {:trigger n[k].releases[a]} :: 0 <= a < |n[k].releases| ==>
              Sound(n[k].hosts, n[k].queued, n[k].releases[a])
    ensures forall a, b {:trigger n[k].releases[a], n[k].releases[b]} :: 0 <= a < b < |n[k].releases| ==>
              n[k].releases[a].host != n[k].releases[b].host || n[k].releases[a].ping != n[k].releases[b].ping
  {
    RunKeeps(n, run, k);
    hide Honest, Waiting, Sound, Balanced, Spent;
  }

  /** The frame went to whoever owns the address its sender has to ask for. */
  ghost predicate ReachesOwner(hosts: seq<Host>, t: Sent) {
    && t.host < |hosts| && IsEchoRequest(t.frame)
    && var hop := Hop(hosts[t.host], DestinationOf(t.frame));
    && (exists j {:trigger hosts[j]} :: 0 <= j < |hosts| && hosts[j].ip == hop)
    && (forall j {:trigger hosts[j]} :: 0 <= j < |hosts| && hosts[j].ip == hop ==> t.frame[..6] == hosts[j].mac)
  }

  /**
   The same without the history: every echo request that any host ever sends reaches the owner of the
   address it has to go to, and no host ever sends more of them than it was told to.
   */
  lemma {:induction false} PingsReachOwners(n: seq<Net>, run: seq<Event>, k: nat)
    requires IsRun(n, run) && k <= |run|
    ensures forall a {:trigger n[k].sent[a]} :: 0 <= a < |n[k].sent| && IsEchoRequest(n[k].sent[a].frame) ==>
              ReachesOwner(n[k].hosts, n[k].sent[a])
    ensures forall i: nat {:trigger PingEvents(run[..k], i)} :: i < |n[k].hosts| ==>
              CountBy(EchoRequests(n[k].sent), i) <= PingEvents(run[..k], i)
  {
    RunKeeps(n, run, k);
    var m := n[k];
    forall a | 0 <= a < |m.sent| && IsEchoRequest(m.sent[a].frame)
      ensures ReachesOwner(m.hosts, m.sent[a])
    {
      EchoRequestsHas(m.sent, a);
      var b :| 0 <= b < |m.releases| && Transmissions(m.releases)[b] == m.sent[a];
      SoundReachesOwner(m, m.releases[b]);
    }
    forall i: nat | i < |m.hosts|
      ensures CountBy(EchoRequests(m.sent), i) <= PingEvents(run[..k], i)
    {
      SameSize(n, run, k);
      OneQueuedPerPing(n, run, k, i);
      assert Balanced(m, i);
    }
  }

  lemma {:induction false} SameSize(n: seq<Net>, run: seq<Event>, k: nat)
    requires IsRun(n, run) && k <= |run|
    ensures |n[k].hosts| == |n[0].hosts|
  {
    if k > 0 {
      SameSize(n, run, k - 1);
      assert n[k] == Apply(n[k - 1], run[k - 1]);
    }
  }

  lemma SoundReachesOwner(n: Net, r: Release)
    requires Sound(n.hosts, n.queued, r)
    ensures ReachesOwner(n.hosts, Sent(r.host, r.frame))
  {
    hide GoesByGateway;
    var q := n.queued[r.host][r.ping];
    forall j | 0 <= j < |n.hosts| && n.hosts[j].ip == Hop(n.hosts[r.host], DestinationOf(q))
      ensures r.frame[..6] == n.hosts[j].mac
    {
      assert Splice(q, 0, n.hosts[j].mac)[..6] == n.hosts[j].mac;
    }
  }

  /** No frame of such a network claims an IP length below its header, so every frame can be handled. */
  lemma {:induction false} FramesStaySane(n: seq<Net>, run: seq<Event>, k: nat)
    requires IsRun(n, run) && k <= |run|
    ensures forall a {:trigger n[k].sent[a]} :: 0 <= a < |n[k].sent| ==> IsLongEnough(n[k].sent[a].frame)
  {
    RunKeeps(n, run, k);
  }
}
