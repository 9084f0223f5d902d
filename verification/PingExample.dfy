/** One ping octet by octet: 10.0.0.1 asks for 10.0.0.2, is told its MAC address, and gets its echo back. */
module PingExample {
  import opened Bytes
  import opened Checksum
  import opened Frames
  import opened HostModel
  import opened NetHosts
  import opened LoopModel
  import opened NetLoops
  import opened Wire
  import Exchange

  const A: Mac := [2, 0, 0, 0, 0, 1]
  const B: Mac := [2, 0, 0, 0, 0, 2]

  /** What the host sends. */
  const REQUEST: seq<byte> :=
    [255, 255, 255, 255, 255, 255, 2, 0, 0, 0, 0, 1, 0x08, 0x06]
    + [0, 1, 0x08, 0x00, 6, 4, 0, 1, 2, 0, 0, 0, 0, 1, 10, 0, 0, 1, 0, 0, 0, 0, 0, 0, 10, 0, 0, 2]

  const PING: seq<byte> :=
    [2, 0, 0, 0, 0, 2, 2, 0, 0, 0, 0, 1, 0x08, 0x00]
    + [0x45, 0, 0, 28, 0, 0, 0x40, 0, 255, 1, 0x67, 0xde, 10, 0, 0, 1, 10, 0, 0, 2]
    + [8, 0, 0xf7, 0xff, 0, 0, 0, 0]

  /** What it gets. */
  const ARP_REPLY: seq<byte> :=
    [2, 0, 0, 0, 0, 1, 2, 0, 0, 0, 0, 2, 0x08, 0x06]
    + [0, 1, 0x08, 0x00, 6, 4, 0, 2, 2, 0, 0, 0, 0, 2, 10, 0, 0, 2, 2, 0, 0, 0, 0, 1, 10, 0, 0, 1]

  const ECHO: seq<byte> :=
    [2, 0, 0, 0, 0, 1, 2, 0, 0, 0, 0, 2, 0x08, 0x00]
    + [0x45, 0, 0, 28, 0, 0, 0, 0, 255, 1, 0xa7, 0xde, 10, 0, 0, 2, 10, 0, 0, 1]
    + [0, 0, 0xff, 0xff, 0, 0, 0, 0]

  /** The host before its ping, and when it waits for an address. */
  predicate IsPinger(h: Host) {
    && h.mac == A && h.ip == [10, 0, 0, 1] && h.netmask == [255, 255, 255, 0] && h.gateway == [0, 0, 0, 0]
    && h.ourVlan == h.nativeVlan == 0xffff && h.pingIp == [10, 0, 0, 2]
  }

  lemma RequestIs(h: Host)
    requires IsPinger(h)
    ensures RequestOctets(h, h.pingIp) == REQUEST
  {
  }

  lemma IcmpSum()
    ensures Cksum(PingIcmp(0)) == 0xfff7
  {
    var s := PingIcmp(0);
    assert s == [8, 0, 0, 0, 0, 0, 0, 0];
    Exchange.NextWord(s, 0);
    Exchange.NextWord(s, 2);
    Exchange.NextWord(s, 4);
    Exchange.NextWord(s, 6);
    assert s[0..] == s && s[8..] == [];
    OnesSumIsCanon(s);
    hide OnesSum;
  }

  lemma SealedHeader()
    ensures Sealed(PingIpHeader(0, [10, 0, 0, 1], [10, 0, 0, 2]), 10)
         == [0x45, 0, 0, 28, 0, 0, 0x40, 0, 255, 1] + [0x67, 0xde] + [10, 0, 0, 1] + [10, 0, 0, 2]
  {
    Exchange.ExampleSum();
    hide OnesSum, Cksum;
  }

  lemma PingIs(h: Host)
    requires IsPinger(h)
    ensures PingFrame(h, B, 0, 0) == PING
  {
    SealedHeader();
    IcmpSum();
    hide OnesSum, Cksum, PingIpHeader;
    HeaderOctets(B, h.mac, h.ourVlan, PROT_IP);
    hide EtherHeader;
    assert Sealed(PingIcmp(0), 2) == [8, 0, 0xf7, 0xff, 0, 0, 0, 0];
    hide Sealed;
  }

  lemma EchoSum(h: seq<byte>)
    requires h == [0x45, 0, 0, 28, 0, 0, 0, 0, 255, 1, 0xa7, 0xde, 10, 0, 0, 2, 10, 0, 0, 1]
    ensures OnesSum(h) == 0xffff
  {
    hide WordSum, OnesSum;
    Exchange.TenWords(h);
    OnesSumIsCanon(h);
    assert WordSum(h) == 0xffff;
  }

  lemma ReplyFacts()
    ensures |ARP_REPLY| == 42 && ARP_REPLY[12] == 0x08 && ARP_REPLY[13] == 0x06 && ARP_REPLY[21] == 2
    ensures ARP_REPLY[14..22] == [0, 1, 0x08, 0x00, 6, 4, 0, 2] && ARP_REPLY[22..28] == B
    ensures ARP_REPLY[28..32] == [10, 0, 0, 2] && ARP_REPLY[38..42] == [10, 0, 0, 1]
  {
    var body: seq<byte> := [0, 1, 0x08, 0x00, 6, 4, 0, 2] + B + [10, 0, 0, 2] + A + [10, 0, 0, 1];
    assert ARP_REPLY == [2, 0, 0, 0, 0, 1, 2, 0, 0, 0, 0, 2, 0x08, 0x06] + body;
    hide ARP_REPLY;
    assert body[8..14] == B && body[14..18] == [10, 0, 0, 2] && body[24..28] == [10, 0, 0, 1];
  }

  lemma Behind(f: seq<byte>, n: nat, i: nat, j: nat)
    requires i <= j && n + j <= |f|
    ensures f[n..][i..j] == f[n + i..n + j]
  {
  }

  lemma ReplyIsAwaited(h: Host)
    requires IsPinger(h) && h.waitPacketIp == h.waitReplyIp == [10, 0, 0, 2]
    ensures IsAwaitedReply(h, ARP_REPLY) && !IsArpFor(h, ARP_REPLY, 1) && !IsTruncatedPing(ARP_REPLY)
    ensures |ARP_REPLY| == 42 && Packet(ARP_REPLY)[8..14] == B
  {
    ReplyFacts();
    hide ARP_REPLY;
    var f := ARP_REPLY;
    assert LinkSize(f) == 14;
    var b := Packet(f);
    Behind(f, 14, 0, 8);
    Behind(f, 14, 8, 14);
    Behind(f, 14, 14, 18);
    Behind(f, 14, 24, 28);
    assert b[..8] == b[0..8];
    assert b[..8][7] == 2;
  }

  lemma EchoFacts()
    ensures |ECHO| == 42 && ECHO[12] == 0x08 && ECHO[13] == 0x00
    ensures ECHO[14] == 0x45 && ECHO[16] == 0 && ECHO[17] == 28 && ECHO[20] == ECHO[21] == 0 && ECHO[23] == 1 && ECHO[34] == 0
    ensures OnesSum(ECHO[14..34]) == 0xffff
    ensures ECHO[26..30] == [10, 0, 0, 2] && ECHO[30..34] == [10, 0, 0, 1]
  {
    hide OnesSum;
    var link: seq<byte> := [2, 0, 0, 0, 0, 1, 2, 0, 0, 0, 0, 2, 0x08, 0x00];
    var ip: seq<byte> := [0x45, 0, 0, 28, 0, 0, 0, 0, 255, 1, 0xa7, 0xde, 10, 0, 0, 2, 10, 0, 0, 1];
    assert ECHO == link + ip + [0, 0, 0xff, 0xff, 0, 0, 0, 0];
    hide ECHO;
    EchoSum(ip);
    assert ECHO[14..34] == ip && ECHO[26..30] == ip[12..16] && ECHO[30..34] == ip[16..20];
    assert ip[12..16] == [10, 0, 0, 2] && ip[16..20] == [10, 0, 0, 1];
  }

  lemma EchoIsReply(h: Host)
    requires IsPinger(h)
    ensures IsEchoReply(h, ECHO) && !IsArpFor(h, ECHO, 1) && !IsArpFor(h, ECHO, 2) && !IsTruncatedPing(ECHO) && |ECHO| == 42
  {
    EchoFacts();
    hide OnesSum, ECHO;
    var f := ECHO;
    assert LinkSize(f) == 14;
    var b := Packet(f);
    Behind(f, 14, 0, 20);
    Behind(f, 14, 12, 16);
    Behind(f, 14, 16, 20);
    assert b[..20] == b[0..20];
  }

  lemma ReplyIsNoEcho(h: Host)
    ensures !IsEchoReply(h, ARP_REPLY)
  {
  }

  /** The first reply comes in pass 0, the second in pass 1. */
  function Replies(k: nat): Pass {
    Pass(k + 1, k + 1, k + 1, k + 1, if k == 0 then [ARP_REPLY] else if k == 1 then [ECHO] else [], false, true, 0)
  }

  lemma RepliesTick(env: nat -> Pass)
    requires forall k: nat :: env(k) == Replies(k)
    ensures Ticking(env) && env(0).t0 == 1
  {
    SaneOctets(ARP_REPLY);
    SaneOctets(ECHO);
    hide Sane;
    forall k: nat
      ensures PassOk(env(k))
    {
    }
  }

  lemma OneFrame(h: Host, f: seq<byte>)
    requires Ready(h) && Sane(f)
    ensures ReceiveAll(h, [f]) == (Receive(h, f).0, Receive(h, f).1)
  {
    hide Receive;
    assert [f][..0] == [];
    assert [] + Receive(h, f).1 == Receive(h, f).1;
  }

  /** A pinger whose ping waits for 10.0.0.2. */
  predicate Waits(h: Host) {
    && IsPinger(h) && Ready(h) && h.waitPacketIp == h.waitReplyIp == [10, 0, 0, 2] && h.waitStart == 0
    && h.packet == PingFrame(h, NULL_MAC, 0, 0)
  }

  function Released(h: Host): Host {
    h.(packet := [], waitPacketIp := [0, 0, 0, 0])
  }

  lemma WithDestination(h: Host)
    requires h.mac == A
    ensures B + PingFrame(h, NULL_MAC, 0, 0)[6..] == PingFrame(h, B, 0, 0)
  {
    hide PingBody;
    HeaderOctets(B, h.mac, h.ourVlan, PROT_IP);
    HeaderOctets(NULL_MAC, h.mac, h.ourVlan, PROT_IP);
    hide EtherHeader;
  }

  lemma PingIsReleased(h: Host)
    requires Waits(h)
    ensures Sane(ARP_REPLY) && Receive(h, ARP_REPLY) == (Released(h), [PING])
  {
    ReplyIsAwaited(h);
    ReceivedExactly(h, ARP_REPLY);
    PingIs(h);
    WithDestination(h);
    hide Receive, IsAwaitedReply, IsArpFor, IsTruncatedPing, Sane, PingFrame, ARP_REPLY, PING, Packet, IsEchoReply, IsIcmpFor;
  }

  lemma EchoSucceeds(h: Host)
    requires IsPinger(h) && Ready(h)
    ensures Sane(ECHO) && Receive(h, ECHO).1 == []
  {
    EchoIsReply(h);
    ReceivedExactly(h, ECHO);
    hide Receive, IsEchoReply, IsArpFor, IsTruncatedPing, Sane;
  }

  /** In pass 0 the ping goes out to where the reply says. */
  lemma FirstPass(h: Host)
    requires Waits(h)
    ensures (forall f :: f in Replies(0).frames ==> Sane(f)) && Polled(h, Replies(0)) == (Released(h), [PING])
  {
    PingIsReleased(h);
    hide Receive, Sane, PingFrame;
    OneFrame(h, ARP_REPLY);
    assert [] + [PING] == [PING];
  }

  /** In pass 1 nothing more is sent. */
  lemma SecondPass(h: Host)
    requires IsPinger(h) && h.waitPacketIp == NO_IP
    ensures (forall f :: f in Replies(1).frames ==> Sane(f)) && Polled(h, Replies(1)).1 == []
  {
    EchoSucceeds(h);
    hide Receive, Sane;
    OneFrame(h, ECHO);
  }

  lemma TwoPasses(h: Host, env: nat -> Pass)
    requires Waits(h) && (forall k: nat :: env(k) == Replies(k)) && Ticking(env)
    ensures Passes(h, env, 0, 2).1 == [PING]
  {
    FirstPass(h);
    SecondPass(Released(h));
    hide Polled, PingFrame, PassOk;
    assert Passes(h, env, 0, 0) == (h, []);
    assert [] + [PING] == [PING] && [PING] + [] == [PING];
    assert Passes(h, env, 0, 1) == (Released(h), [PING]);
  }

  lemma RepliedAtOnce(h: Host, env: nat -> Pass, ret: int, restarts: nat, passes: nat, state: LoopState)
    requires IsPinger(h) && forall k: nat :: env(k) == Replies(k)
    requires Answered(h, env, 0, 0, restarts, passes, state, ret) && passes > 0
    requires state == Success ==> AnyEchoReply(h, env(passes - 1).frames)
    ensures ret == 0 && restarts == 0 && passes == 2
  {
    EchoIsReply(h);
    ReplyIsNoEcho(h);
    hide IsEchoReply;
    assert ECHO in env(1).frames;
    assert RepliedInTime(h, env, 0, 0, 1);
  }

  lemma PingSent(h: Host, env: nat -> Pass)
    requires IsPinger(h) && Ready(h) && h.state == Continue && h.ipId == h.pingSeq == 0
    requires (forall k: nat :: env(k) == Replies(k)) && Ticking(env)
    ensures var g := PingSend(h, 0);
         Started(g, env(0).t0) && RequestFrame(g) == REQUEST && Passes(g, env, 0, 2).1 == [PING]
  {
    PingAsks(h, 0);
    PingWaits(h, 0);
    RequestIs(h);
    var g := PingSend(h, 0);
    SamePing(g, h);
    hide PingFrame;
    TwoPasses(g, env);
  }

  lemma SamePing(g: Host, h: Host)
    requires g.mac == h.mac && g.ip == h.ip && g.pingIp == h.pingIp && g.ourVlan == h.ourVlan
    ensures PingFrame(g, NULL_MAC, 0, 0) == PingFrame(h, NULL_MAC, 0, 0)
  {
  }

  method RunReplies(l: NetLoop, env: nat -> Pass) returns (ret: int)
    requires l.Valid() && (forall k: nat :: env(k) == Replies(k)) && IsPinger(l.host.View()) && l.host.sent == []
    requires l.host.ipId == l.host.pingSeq == 0
    modifies l, l.host, l.host.txPacket, l.host.arpTxPacket
    ensures ret == 0 && l.host.sent == [REQUEST, PING]
  {
    hide Receive, PingFrame, Passes, PassOk, Answered, AnyEchoReply, Replies, REQUEST, PING, Requests;
    ghost var h := l.host.View();
    RepliesTick(env);
    var restarts, passes;
    ghost var first;
    ret, restarts, passes, first := l.Run(env, 0, 0, 0);
    RepliedAtOnce(h, env, ret, restarts, passes, l.host.state);
    PingSent(h.(state := Continue), env);
    assert [] + [REQUEST] + [PING] == [REQUEST, PING];
  }

  /** The loop returns 0, and has sent one request and one ping. */
  method AnsweredPing() returns (ret: int, sent: seq<seq<byte>>)
    ensures ret == 0 && sent == [REQUEST, PING]
  {
    var host := new NetHost(A, [10, 0, 0, 1], [255, 255, 255, 0], [0, 0, 0, 0], 0xffff, 0xffff);
    host.pingIp := [10, 0, 0, 2];
    var l := new NetLoop(host);
    var env: nat -> Pass := (k: nat) => Replies(k);
    ret := RunReplies(l, env);
    sent := host.sent;
  }
}
