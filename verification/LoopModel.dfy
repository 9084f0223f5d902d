/**
 The waiting of `net_loop(PING)` as a value: what one pass of the loop does to a host, and what that
 leaves of the attempt. Class `NetLoop` proves that the code does this.
 */
module LoopModel {
  import opened Bytes
  import opened Frames
  import opened HostModel
  import opened ArpSafety
  import opened Wire

  /**
   What the outside does in one pass of the loop: the clock at each of its readings, the frames
   `eth_rx` hands on, whether ctrl-c was pressed, and how a retry would fare (`eth_try_another` and
   `eth_init`: has every device been tried, and the result).
   */
  datatype Pass = Pass(t0: nat, t1: nat, t2: nat, t3: nat, frames: seq<seq<byte>>, ctrlc: bool, wrap: bool, initRet: int)

  predicate Deliverable(f: seq<byte>) {
    |f| <= PKTSIZE_ALIGN && Sane(f)
  }

  ghost predicate PassOk(p: Pass) {
    p.t0 <= p.t1 <= p.t2 <= p.t3 && forall f :: f in p.frames ==> Deliverable(f)
  }

  /** The clock never runs back, and advances from each pass to the next. */
  ghost predicate Ticking(env: nat -> Pass) {
    && (forall k: nat {:trigger env(k)} :: PassOk(env(k)))
    && (forall j: nat, k: nat {:trigger env(j), env(k)} :: k == j + 1 ==> env(j).t3 < env(k).t0)
  }

  lemma {:induction false} ClockRuns(env: nat -> Pass, j: nat, k: nat)
    requires Ticking(env) && j <= k
    ensures env(j).t0 <= env(j).t2 <= env(k).t2
    decreases k - j
  {
    assert PassOk(env(j));
    if j < k {
      ClockRuns(env, j + 1, k);
      assert env(j).t3 < env(j + 1).t0;
    }
  }

  // ARP requests

  predicate IsRequest(f: seq<byte>) {
    && HasHeader(f) && ProtocolOf(f) == PROT_ARP
    && ParseArp(Payload(f)).Some? && ParseArp(Payload(f)).value.op == ARPOP_REQUEST
  }

  /** How many of the frames are ARP requests. */
  function Requests(s: seq<seq<byte>>): nat {
    if s == [] then 0 else Requests(s[..|s| - 1]) + if IsRequest(s[|s| - 1]) then 1 else 0
  }

  lemma RequestsOne(s: seq<seq<byte>>, f: seq<byte>)
    ensures Requests(s + [f]) == Requests(s) + if IsRequest(f) then 1 else 0
  {
    assert (s + [f])[..|s|] == s;
  }

  lemma OwnRequestIsRequest(h: Host)
    ensures IsRequest(RequestFrame(h))
  {
    var q := Arp(ARPOP_REQUEST, h.mac, h.ip, NULL_MAC, h.waitReplyIp);
    BuiltIsReceived(BROADCAST_MAC, h.mac, h.ourVlan, PROT_ARP, ArpBody(q), 0, 0);
    ArpRoundTrip(q, []);
    assert ArpBody(q) + [] == ArpBody(q);
  }

  // One pass

  /** `arp_timeout_check`; frames sent come second. */
  function TimedOut(h: Host, now: nat): (r: (Host, seq<seq<byte>>))
    requires Ready(h) && (h.waitPacketIp != NO_IP ==> h.waitStart <= now)
    ensures Ready(r.0) && (r.0.waitPacketIp != NO_IP ==> r.0.waitStart <= now)
  {
    if h.waitPacketIp == NO_IP then (h, []) else ArpTimeout(h, now)
  }

  /** `eth_rx`: all frames that have arrived, one after the other. */
  function ReceiveAll(h: Host, frames: seq<seq<byte>>): (r: (Host, seq<seq<byte>>))
    requires Ready(h) && forall f :: f in frames ==> Sane(f)
    ensures Ready(r.0) && r.0.waitStart == h.waitStart
    ensures r.0.waitPacketIp == h.waitPacketIp || r.0.waitPacketIp == NO_IP
  {
    if frames == [] then (h, [])
    else
      var (g, out) := ReceiveAll(h, frames[..|frames| - 1]);
      var (k, more) := Receive(g, frames[|frames| - 1]);
      (k, out + more)
  }

  /** The first half of a pass. */
  function Polled(h: Host, p: Pass): (r: (Host, seq<seq<byte>>))
    requires Ready(h) && (h.waitPacketIp != NO_IP ==> h.waitStart <= p.t0) && forall f :: f in p.frames ==> Sane(f)
    ensures Ready(r.0) && (r.0.waitPacketIp != NO_IP ==> r.0.waitStart <= p.t0)
  {
    var (g, out) := TimedOut(h, p.t0);
    var (k, more) := ReceiveAll(g, p.frames);
    (k, out + more)
  }

  /** The fifth wait for an address has been in vain. */
  predicate GivesUp(h: Host, now: nat) {
    h.waitPacketIp != NO_IP && now - h.waitStart > 5000 && h.waitTry >= 4
  }

  /** The start of the ten seconds that the timeout handler waits: put off as long as an address is awaited. */
  function WaitsFrom(h: Host, timeStart: nat, p: Pass): nat {
    if h.waitPacketIp != NO_IP then p.t1 else timeStart
  }

  /** Addresses and VLANs, which no event of an attempt changes. */
  predicate SameConfig(h: Host, g: Host) {
    g.ip == h.ip && g.pingIp == h.pingIp && g.ourVlan == h.ourVlan && g.nativeVlan == h.nativeVlan
  }

  /** Among the frames is an echo reply from the address being pinged that the host accepts. */
  ghost predicate AnyEchoReply(h: Host, frames: seq<seq<byte>>) {
    exists f {:trigger IsEchoReply(h, f)} :: f in frames && IsEchoReply(h, f)
  }

  /** A packet that waits is an echo request. */
  ghost predicate WaitsWithPing(h: Host) {
    h.waitPacketIp != NO_IP ==> IsEchoRequest(h.packet)
  }

  /** Both states belong to the same attempt: the same ping, the same clock of its ARP requests. */
  ghost predicate SameAttempt(h: Host, g: Host) {
    && g.waitTry == h.waitTry && g.waitStart == h.waitStart && SameConfig(h, g)
    && (g.waitPacketIp == h.waitPacketIp || g.waitPacketIp == NO_IP)
  }

  lemma SameReplies(h: Host, g: Host, f: seq<byte>)
    requires SameConfig(h, g)
    ensures IsEchoReply(h, f) <==> IsEchoReply(g, f)
  {
  }

  /** A timeout asks once more, and counts it, or gives up. */
  lemma TimeoutEffects(h: Host, now: nat, sent: seq<seq<byte>>)
    requires Ready(h) && h.waitPacketIp != NO_IP && h.waitStart <= now
    ensures var (g, out) := ArpTimeout(h, now);
            && g.packet == h.packet && g.waitPacketIp == h.waitPacketIp && SameConfig(h, g)
            && (if now - h.waitStart <= ARP_TIMEOUT then g == h && Requests(sent + out) == Requests(sent)
                else if h.waitTry + 1 >= ARP_TIMEOUT_COUNT then g.state == Fail && Requests(sent + out) == Requests(sent)
                else g.state == h.state && g.waitTry == h.waitTry + 1 && g.waitStart == now
                     && Requests(sent + out) == Requests(sent) + 1)
  {
    var (g, out) := ArpTimeout(h, now);
    if out == [] {
      assert sent + out == sent;
    } else {
      OwnRequestIsRequest(g);
      RequestsOne(sent, out[0]);
      assert out == [out[0]];
    }
  }

  /** A frame that is received succeeds exactly if it is an echo reply for the host, and asks for no address. */
  lemma ReceiveEffects(h: Host, f: seq<byte>)
    requires Ready(h) && Sane(f) && WaitsWithPing(h)
    ensures var (g, out) := Receive(h, f);
            && SameAttempt(h, g) && WaitsWithPing(g)
            && g.state == (if IsEchoReply(h, f) then Success else h.state)
            && |out| <= 1 && (out != [] ==> !IsRequest(out[0]))
  {
    assert IsEchoReply(h, f) ==> !IsArpFor(h, f, 1) && !IsArpFor(h, f, 2);
    SaneOctets(f);
    ReceivedExactly(h, f);
    AnswersAreNoRequests(h, f);
    hide Receive, IsArpFor, IsIcmpFor, IsEchoOf, AnswerLink, IsEchoRequest, IsRequest;
  }

  lemma AnswersAreNoRequests(h: Host, f: seq<byte>)
    requires Ready(h) && Sane(f) && WaitsWithPing(h)
    ensures var out := Receive(h, f).1; out != [] ==> !IsRequest(out[0])
  {
    var (g, out) := Receive(h, f);
    if out != [] {
      if ReleasesPacket(h, f) {
        ReleaseFollowsReply(h, f);
        ReleasedIsPing(h.packet, ParseArp(Payload(f)).value.sha);
      } else if ProtocolOf(f) == PROT_ARP {
        var a := ParseArp(Payload(f)).value;
        var r := Arp(ARPOP_REPLY, h.mac, h.ip, a.sha, a.spa);
        AnswerHeaderFields(h, f, PROT_ARP, ArpBody(r));
        ArpRoundTrip(r, []);
        assert ArpBody(r) + [] == ArpBody(r);
      } else {
        EchoIsNoRequest(h, f);
      }
    }
  }

  lemma AnyEchoReplySnoc(h: Host, g: Host, frames: seq<seq<byte>>, f: seq<byte>)
    requires SameConfig(h, g)
    ensures AnyEchoReply(h, frames + [f]) <==> AnyEchoReply(h, frames) || IsEchoReply(g, f)
  {
    SameReplies(h, g, f);
    hide IsEchoReply;
    assert f in frames + [f];
    assert forall e :: e in frames ==> e in frames + [f];
  }

  lemma NoReply(h: Host)
    ensures !AnyEchoReply(h, [])
  {
  }

  /** So do all frames of a pass together. */
  lemma {:induction false} ReceiveAllEffects(h: Host, frames: seq<seq<byte>>, sent: seq<seq<byte>>)
    requires Ready(h) && WaitsWithPing(h) && forall f :: f in frames ==> Sane(f)
    ensures var (g, out) := ReceiveAll(h, frames);
            && SameAttempt(h, g) && WaitsWithPing(g)
            && g.state == (if AnyEchoReply(h, frames) then Success else h.state)
            && Requests(sent + out) == Requests(sent)
    decreases |frames|
  {
    hide Receive, IsEchoReply, AnyEchoReply, WaitsWithPing, Sane, IsRequest, Requests;
    if frames == [] {
      assert sent + [] == sent;
      NoReply(h);
    } else {
      var n := |frames| - 1;
      ReceiveAllEffects(h, frames[..n], sent);
      var (g, out) := ReceiveAll(h, frames[..n]);
      ReceiveEffects(g, frames[n]);
      AnyEchoReplySnoc(h, g, frames[..n], frames[n]);
      assert frames == frames[..n] + [frames[n]];
      var more := Receive(g, frames[n]).1;
      assert sent + (out + more) == sent + out + more;
      if more != [] {
        assert more == [more[0]];
        RequestsOne(sent + out, more[0]);
      } else {
        assert sent + out + more == sent + out;
      }
    }
  }

  // An attempt

  /**
   An attempt is under way at time `clock`; it began at time `began`, when `base` ARP requests had been
   sent, of now `requests`.
   */
  ghost predicate Underway(h: Host, timeStart: nat, requests: nat, clock: nat, base: nat, began: nat) {
    && Ready(h) && WaitsWithPing(h) && h.state == Continue
    && began <= timeStart <= clock && requests <= base + ARP_TIMEOUT_COUNT - 1
    && (h.waitPacketIp != NO_IP ==>
      && 1 <= h.waitTry < ARP_TIMEOUT_COUNT && began + 5000 * (h.waitTry - 1) <= h.waitStart <= clock
      && requests == base + h.waitTry)
  }

  /** What an attempt has left: an address to wait for, ARP requests, time. */
  ghost function Left(h: Host, timeStart: nat, clock: nat): (nat, int, int) {
    if h.waitPacketIp != NO_IP then (1, ARP_TIMEOUT_COUNT - h.waitTry, h.waitStart + ARP_TIMEOUT + 1 - clock)
    else (0, 0, timeStart + 10000 + 1 - clock)
  }

  /** `a` is less than `b`, in the order that has no infinite descent. */
  ghost predicate LexLess(a: (nat, int, int), b: (nat, int, int)) {
    a.0 < b.0 || (a.0 == b.0 && ((a.1 < b.1 && 0 <= b.1) || (a.1 == b.1 && a.2 < b.2 && 0 <= b.2)))
  }

  /** One pass brings what is left from `b` to `a`, unless the whole attempt has run out of time. */
  ghost predicate Advances(b: (nat, int, int), a: (nat, int, int)) {
    a.0 < b.0 || (a.0 == b.0 && (a.0 > 0 ==> LexLess(a, b)) && (a.0 == 0 ==> a.1 == b.1 && a.2 < b.2))
  }

  /** The timeout check of a pass. */
  lemma TimeoutStep(h: Host, timeStart: nat, sent: seq<seq<byte>>, p: Pass, clock: nat, base: nat, began: nat)
    requires Underway(h, timeStart, Requests(sent), clock, base, began) && clock < p.t0 <= p.t1
    ensures var (g, out) := TimedOut(h, p.t0);
            && SameConfig(h, g) && WaitsWithPing(g) && g.waitPacketIp == h.waitPacketIp
            && Requests(sent + out) <= base + ARP_TIMEOUT_COUNT - 1
            && (GivesUp(h, p.t0) ==> g.state == Fail && p.t0 > began + 20000)
            && (!GivesUp(h, p.t0) ==>
              && Underway(g, WaitsFrom(h, timeStart, p), Requests(sent + out), p.t1, base, began)
              && Advances(Left(h, timeStart, clock), Left(g, WaitsFrom(h, timeStart, p), p.t1)))
  {
    hide Ready, Requests;
    if h.waitPacketIp != NO_IP {
      TimeoutEffects(h, p.t0, sent);
      hide ArpTimeout;
    } else {
      assert sent + [] == sent;
    }
  }

  /** The first half of a pass: success exactly on an echo reply, else failure exactly if it gives up, else it goes on. */
  lemma PollStep(h: Host, timeStart: nat, sent: seq<seq<byte>>, p: Pass, clock: nat, base: nat, began: nat)
    requires Underway(h, timeStart, Requests(sent), clock, base, began) && clock < p.t0 && PassOk(p)
    ensures forall f :: f in p.frames ==> Sane(f)
    ensures var (k, out) := Polled(h, p); var from := WaitsFrom(h, timeStart, p);
            && SameConfig(h, k) && WaitsWithPing(k) && Requests(sent + out) <= base + ARP_TIMEOUT_COUNT - 1
            && k.state == (if AnyEchoReply(h, p.frames) then Success else if GivesUp(h, p.t0) then Fail else Continue)
            && (GivesUp(h, p.t0) ==> p.t0 > began + 20000) && began <= from <= p.t1
            && (k.state == Continue ==>
              && Underway(k, from, Requests(sent + out), p.t1, base, began)
              && Advances(Left(h, timeStart, clock), Left(k, from, p.t1)))
  {
    hide ReceiveAll, IsEchoReply, Requests, Sane, Ready;
    TimeoutStep(h, timeStart, sent, p, clock, base, began);
    hide TimedOut, WaitsWithPing;
    var (g, out) := TimedOut(h, p.t0);
    ReceiveAllEffects(g, p.frames, sent + out);
    var more := ReceiveAll(g, p.frames).1;
    assert sent + (out + more) == sent + out + more;
    forall f | f in p.frames
      ensures IsEchoReply(h, f) <==> IsEchoReply(g, f)
    {
      SameReplies(h, g, f);
    }
  }

  /** The clock of the ARP requests has not run ahead. */
  predicate Started(h: Host, now: nat) {
    h.waitPacketIp != NO_IP ==> h.waitStart <= now
  }

  /** What passes `from` up to, not including, `n` do to a host as long as the attempt goes on; frames sent come second. */
  ghost function Passes(h: Host, env: nat -> Pass, from: nat, n: nat): (r: (Host, seq<seq<byte>>))
    requires Ready(h) && Ticking(env) && from <= n && Started(h, env(from).t0)
    ensures Ready(r.0) && Started(r.0, env(n).t0)
    decreases n
  {
    if from == n then (h, [])
    else
      var (g, out) := Passes(h, env, from, n - 1);
      assert PassOk(env(n - 1)) && env(n - 1).t3 < env(n).t0;
      var (k, more) := Polled(g, env(n - 1));
      (k, out + more)
  }
}
