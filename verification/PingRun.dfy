/** Runs of a network of two hosts in which a ping is released, delivered and answered. */
module PingRun {
  import opened Bytes
  import opened Frames
  import opened HostModel
  import opened Exchange
  import opened ArpSafety

  /** Two hosts of one network and VLAN setting, neither of which waits for an address. */
  ghost predicate Neighbours(a: Host, b: Host) {
    && Ready(a) && Ready(b) && a.waitPacketIp == NO_IP && b.waitPacketIp == NO_IP
    && a.ip != NO_IP && b.ip != NO_IP && a.ip != b.ip && VlanId(a.ourVlan) == VlanId(b.ourVlan)
    && !GoesByGateway(a, b.ip)
  }

  function Last<T>(s: seq<T>): T
    requires s != []
  {
    s[|s| - 1]
  }

  /** What a delivery to host `i` that makes it `g` and sends `out` does to the network. */
  ghost predicate Delivered(n: Net, m: Net, i: nat, g: Host, out: seq<seq<byte>>)
    requires i < |n.hosts| == |n.queued|
  {
    && m.hosts == n.hosts[i := g] && m.queued == n.queued && m.sent == n.sent + By(i, out)
    && m.releases == n.releases + if n.hosts[i].waitPacketIp != NO_IP && g.waitPacketIp == NO_IP
                                     && n.queued[i] != [] && out != []
                                  then [Release(i, |n.queued[i]| - 1, out[0])] else []
  }

  lemma RunGoesOn(n: seq<Net>, run: seq<Event>, e: Event)
    requires IsRun(n, run) && Enabled(Last(n), e)
    ensures IsRun(n + [Apply(Last(n), e)], run + [e])
  {
    hide Enabled, Apply, Start;
    var m, more := n + [Apply(Last(n), e)], run + [e];
    forall k | 0 <= k < |more|
      ensures Enabled(m[k], more[k]) && m[k + 1] == Apply(m[k], more[k])
    {
      if k < |run| {
        assert more[k] == run[k] && m[k] == n[k] && m[k + 1] == n[k + 1];
      }
    }
  }

  lemma IsDelivered(n: Net, i: nat, g: Host, out: seq<seq<byte>>)
    requires i < |n.hosts| == |n.queued| && n.sent != [] && Hears(n.hosts[i], Last(n.sent).frame, g, out)
    ensures var e := Deliver(i, Last(n.sent).frame); Enabled(n, e) && Delivered(n, Apply(n, e), i, g, out)
  {
    hide Receive, Sane;
  }

  /** The run goes on when the frame sent last arrives at host `i`. */
  lemma LastArrives(n: seq<Net>, run: seq<Event>, i: nat, g: Host, out: seq<seq<byte>>)
      returns (m: seq<Net>, more: seq<Event>)
    requires IsRun(n, run) && i < |Last(n).hosts| == |Last(n).queued| && Last(n).sent != []
    requires Hears(Last(n).hosts[i], Last(Last(n).sent).frame, g, out)
    ensures IsRun(m, more) && |more| == |run| + 1 && m[0] == n[0] && PingEvents(more, 0) == PingEvents(run, 0)
    ensures Delivered(Last(n), Last(m), i, g, out)
  {
    var e := Deliver(i, Last(Last(n).sent).frame);
    IsDelivered(Last(n), i, g, out);
    RunGoesOn(n, run, e);
    hide Hears, Enabled, Apply, Start, Delivered;
    m, more := n + [Apply(Last(n), e)], run + [e];
    assert more[..|run|] == run;
  }

  /** Host 0 is `g`, the frame sent last is `f`, the releases so far are `rs`. */
  ghost predicate Stage(m: Net, g: Host, b: Host, f: seq<byte>, rs: seq<Release>) {
    && m.hosts == [g, b] && |m.queued| == 2 && |m.queued[0]| == 1 && m.queued[1] == []
    && m.sent != [] && Last(m.sent).frame == f && m.releases == rs
  }

  lemma StageAfterAnswer(n: Net, m: Net, g: Host, b: Host, f: seq<byte>, rs: seq<Release>, out: seq<byte>)
    requires Stage(n, g, b, f, rs) && Delivered(n, m, 1, b, [out])
    ensures Stage(m, g, b, out, rs)
  {
    assert [g, b][1 := b] == [g, b] && By(1, [out]) == [Sent(1, out)];
  }

  function After(f: seq<byte>, out: seq<seq<byte>>): seq<byte> {
    if out == [] then f else out[0]
  }

  function Released(g: Host, k: Host, out: seq<seq<byte>>): seq<Release> {
    if g.waitPacketIp != NO_IP && k.waitPacketIp == NO_IP && out != [] then [Release(0, 0, out[0])] else []
  }

  lemma StageAfterMove(n: Net, m: Net, g: Host, b: Host, f: seq<byte>, rs: seq<Release>, k: Host, out: seq<seq<byte>>)
    requires Stage(n, g, b, f, rs) && Delivered(n, m, 0, k, out) && |out| <= 1
    ensures Stage(m, k, b, After(f, out), rs + Released(g, k, out))
  {
    assert [g, b][0 := k] == [k, b] && (out != [] ==> By(0, out) == [Sent(0, out[0])]);
  }

  /** Host 1 hears `f` and answers `out`. */
  lemma Answers(n: seq<Net>, run: seq<Event>, g: Host, b: Host, f: seq<byte>, rs: seq<Release>, out: seq<byte>)
      returns (m: seq<Net>, more: seq<Event>)
    requires IsRun(n, run) && Stage(Last(n), g, b, f, rs) && Hears(b, f, b, [out])
    ensures IsRun(m, more) && |more| == |run| + 1 && m[0] == n[0] && PingEvents(more, 0) == PingEvents(run, 0)
    ensures Stage(Last(m), g, b, out, rs)
  {
    hide Hears, Delivered, Start, Enabled, Apply, PingEvents;
    m, more := LastArrives(n, run, 1, b, [out]);
    StageAfterAnswer(Last(n), Last(m), g, b, f, rs, out);
  }

  /** Host 0 hears `f`, becomes `k` and sends `out`. */
  lemma Moves(n: seq<Net>, run: seq<Event>, g: Host, b: Host, f: seq<byte>, rs: seq<Release>, k: Host, out: seq<seq<byte>>)
      returns (m: seq<Net>, more: seq<Event>)
    requires IsRun(n, run) && Stage(Last(n), g, b, f, rs) && Hears(g, f, k, out) && |out| <= 1
    ensures IsRun(m, more) && |more| == |run| + 1 && m[0] == n[0] && PingEvents(more, 0) == PingEvents(run, 0)
    ensures Stage(Last(m), k, b, After(f, out), rs + Released(g, k, out))
  {
    hide Hears, Delivered, Start, Enabled, Apply, PingEvents;
    m, more := LastArrives(n, run, 0, k, out);
    StageAfterMove(Last(n), Last(m), g, b, f, rs, k, out);
  }

  lemma NetworkOfTwo(a: Host, b: Host)
    requires Neighbours(a, b)
    ensures Start(Net([a, b], [], [[], []], []))
  {
  }

  /** The run's first event: host 0 of the two is told to ping the other one. */
  lemma PingIsQueued(a: Host, b: Host, now: nat) returns (n: seq<Net>, run: seq<Event>)
    requires Neighbours(a, b)
    ensures var a1 := PingSend(a.(pingIp := b.ip), now);
         && IsRun(n, run) && |run| == 1 && n[0].hosts == [a, b] && PingEvents(run, 0) == 1
         && Last(n) == Net([a1, b], By(0, [RequestFrame(a1)]), [[a1.packet], []], [])
  {
    hide GoesByGateway, PingSend, RequestFrame;
    var n0 := Net([a, b], [], [[], []], []);
    n, run := [n0, Apply(n0, Ping(0, b.ip, now))], [Ping(0, b.ip, now)];
    NetworkOfTwo(a, b);
    hide Start;
    var a1 := PingSend(a.(pingIp := b.ip), now);
    var q: seq<seq<seq<byte>>> := [[], []];
    assert q[0] + [a1.packet] == [a1.packet];
    assert [a, b][0 := a1] == [a1, b] && q[0 := q[0] + [a1.packet]] == [[a1.packet], []];
    assert [] + By(0, [RequestFrame(a1)]) == By(0, [RequestFrame(a1)]);
    assert run[..0] == [];
  }

  /** The four frames of an exchange arrive one after the other. */
  lemma FourDeliveries(n0: seq<Net>, run0: seq<Event>, b: Host, f1: seq<byte>, f2: seq<byte>, f3: seq<byte>, f4: seq<byte>,
                       a1: Host, a2: Host, a3: Host) returns (n: seq<Net>, run: seq<Event>)
    requires IsRun(n0, run0) && Stage(Last(n0), a1, b, f1, [])
    requires Hears(b, f1, b, [f2]) && Hears(a1, f2, a2, [f3]) && Hears(b, f3, b, [f4]) && Hears(a2, f4, a3, [])
    requires a1.waitPacketIp != NO_IP && a2.waitPacketIp == NO_IP
    ensures IsRun(n, run) && |n| == |run| + 1 == |run0| + 5 && n[0] == n0[0] && PingEvents(run, 0) == PingEvents(run0, 0)
    ensures Stage(Last(n), a3, b, f4, [Release(0, 0, f3)])
  {
    hide IsRun, Hears, Stage, PingEvents;
    n, run := Answers(n0, run0, a1, b, f1, [], f2);
    n, run := Moves(n, run, a1, b, f2, [], a2, [f3]);
    assert [] + Released(a1, a2, [f3]) == [Release(0, 0, f3)];
    n, run := Answers(n, run, a2, b, f3, [Release(0, 0, f3)], f4);
    n, run := Moves(n, run, a2, b, f4, [Release(0, 0, f3)], a3, []);
    assert [Release(0, 0, f3)] + Released(a2, a3, []) == [Release(0, 0, f3)];
    RunLength(n, run);
  }

  /**
   Host 0 pings host 1: after five events the ping has been released once, to the MAC address of
   host 1, and has succeeded.
   */
  lemma {:induction false} PingIsReleased(a: Host, b: Host, now: nat) returns (n: seq<Net>, run: seq<Event>)
    requires Neighbours(a, b)
    ensures IsRun(n, run) && |run| == 5 && |n| == 6 && n[0].hosts == [a, b] && PingEvents(run, 0) == 1
    ensures Last(n).releases == [Release(0, 0, PingFrame(a.(pingIp := b.ip), b.mac, a.ipId, a.pingSeq))]
    ensures |Last(n).hosts| == 2 && Last(n).hosts[0].state == Success
  {
    hide GoesByGateway, PingSend, RequestFrame, PingFrame, IsRun, Hears, Echoes, PingEvents;
    var p := a.(pingIp := b.ip);
    SameHop(a, p, b.ip);
    var f2, a2, f3, f4, a3 := PingSucceeds(p, b, now, [], [], [], []);
    PingWaits(p, now);
    var f1 := RequestFrame(PingSend(p, now));
    NoPadding(f1);
    NoPadding(f2);
    NoPadding(f3);
    NoPadding(f4);
    var n1, run1 := PingIsQueued(a, b, now);
    assert By(0, [f1]) == [Sent(0, f1)];
    n, run := FourDeliveries(n1, run1, b, f1, f2, f3, f4, PingSend(p, now), a2, a3);
  }

  lemma RunLength(n: seq<Net>, run: seq<Event>)
    requires IsRun(n, run)
    ensures |n| == |run| + 1
  {
  }

  lemma NoPadding(f: seq<byte>)
    ensures f + [] == f
  {
  }

  lemma PingWaits(p: Host, now: nat)
    ensures PingSend(p, now).waitPacketIp == p.pingIp
  {
  }

  /** Such hosts exist. */
  lemma {:induction false} SomePingIsReleased() returns (n: seq<Net>, run: seq<Event>)
    ensures IsRun(n, run) && |Last(n).releases| == 1
  {
    var a := Host([2, 0, 0, 0, 0, 1], [10, 0, 0, 1], [255, 255, 255, 0], NO_IP, 0xffff, 0xffff, NO_IP, 0, 0,
                  NO_IP, NO_IP, 0, 0, [], Continue);
    var b := a.(mac := [2, 0, 0, 0, 0, 2], ip := [10, 0, 0, 2]);
    n, run := PingIsReleased(a, b, 0);
  }

  /** A run with a release has a delivery that releases a packet. */
  lemma {:induction false} SomeDeliveryReleases(n: seq<Net>, run: seq<Event>, k: nat) returns (j: nat)
    requires IsRun(n, run) && k <= |run| && n[k].releases != []
    ensures j < k && run[j].Deliver? && Enabled(n[j], run[j]) && ReleasesPacket(n[j].hosts[run[j].i], run[j].frame)
  {
    assert k > 0;
    if n[k - 1].releases != [] {
      j := SomeDeliveryReleases(n, run, k - 1);
    } else {
      j := k - 1;
      assert n[k] == Apply(n[j], run[j]);
      hide Receive, ArpTimeout, PingSend, ReleasesPacket, Ready, Sane, IsEchoRequest;
    }
  }

  /** There is a network that keeps the invariant and in which a delivery releases a packet. */
  lemma {:induction false} ReleasesHappen() returns (m: Net, i: nat, f: seq<byte>)
    ensures Inv(m) && Enabled(m, Deliver(i, f)) && ReleasesPacket(m.hosts[i], f)
  {
    hide Inv, ReleasesPacket, Apply;
    var n, run := SomePingIsReleased();
    RunLength(n, run);
    var j := SomeDeliveryReleases(n, run, |run|);
    RunKeeps(n, run, j);
    m, i, f := n[j], run[j].i, run[j].frame;
  }
}
