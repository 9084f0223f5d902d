/**
 `net_loop(PING)` of net/net.c: it ends whatever frames arrive, as long as the clock moves on and
 retries are bounded, it never asks for an address more than four times per attempt, and a reply that
 comes in time ends it with success.
 */
module NetLoops {
  import opened Bytes
  import opened Frames
  import opened HostModel
  import opened NetHosts
  import opened LoopModel
  import Wire
  import ArpSafety
  import Exchange

  const PING_TIMEOUT := 10000

  /** Some frame of the first `n` passes is an echo reply for `h`. */
  ghost predicate Replied(h: Host, env: nat -> Pass, n: nat) {
    exists k: nat {:trigger env(k)} :: k < n && AnyEchoReply(h, env(k).frames)
  }

  /** In pass `k`, ten seconds at most after time `began`, an echo reply arrives, and until then nobody presses ctrl-c. */
  ghost predicate RepliedInTime(h: Host, env: nat -> Pass, first: nat, began: nat, k: nat) {
    && first <= k && AnyEchoReply(h, env(k).frames) && env(k).t2 <= began + 10000
    && forall j: nat {:trigger env(j)} :: first <= j <= k ==> !env(j).ctrlc
  }

  datatype Outcome = GoOn | Again | Done

  class NetLoop {
    const host: NetHost
    var timeHandler: bool
    var timeStart: nat
    var timeDelta: nat
    var netTryCount: nat

    constructor (host: NetHost)
      ensures this.host == host
    {
      this.host := host;
      timeHandler, timeStart, timeDelta, netTryCount := false, 0, 0, 0;
    }

    ghost predicate Valid()
      reads this, host, host.txPacket
    {
      host.Valid() && WaitsWithPing(host.View())
    }

    /** A buffer of the receive ring with a frame in it. */
    method Load(f: seq<byte>) returns (pkt: array<byte>)
      requires |f| <= PKTSIZE_ALIGN
      ensures fresh(pkt) && pkt.Length == PKTSIZE_ALIGN && pkt[..|f|] == f
    {
      pkt := new byte[PKTSIZE_ALIGN](_ => 0);
      Put(pkt, 0, f);
    }

    /** One received frame. */
    method HandOn(f: seq<byte>)
      requires host.Valid() && Deliverable(f)
      modifies host, host.txPacket
      ensures host.Valid() && host.View() == Receive(old(host.View()), f).0
      ensures host.sent == old(host.sent) + Receive(old(host.View()), f).1
    {
      var pkt := Load(f);
      host.ProcessReceivedPacket(pkt, |f|);
    }

    /** `eth_rx`: hands on the frames that have arrived, each once and in order. */
    method EthRx(frames: seq<seq<byte>>)
      requires host.Valid() && forall f :: f in frames ==> |f| <= PKTSIZE_ALIGN && Sane(f)
      modifies host, host.txPacket
      ensures host.Valid() && host.View() == ReceiveAll(old(host.View()), frames).0
      ensures host.sent == old(host.sent) + ReceiveAll(old(host.View()), frames).1
    {
      hide Receive, Sane;
      ghost var h, sent := host.View(), host.sent;
      var n := 0;
      assert frames[..0] == [] && sent + [] == sent;
      while n < |frames|
        invariant n <= |frames| && host.Valid() && host.View() == ReceiveAll(h, frames[..n]).0
        invariant host.sent == sent + ReceiveAll(h, frames[..n]).1
      {
        assert frames[n] in frames && frames[..n + 1][..n] == frames[..n];
        HandOn(frames[n]);
        n := n + 1;
      }
      assert frames[..n] == frames;
    }

    /** An attempt is under way at time `clock`; it began at time `began`, when `base` ARP requests had been sent. */
    ghost predicate Attempting(clock: nat, base: nat, began: nat)
      reads this, host, host.txPacket
    {
      && Valid() && timeHandler && timeDelta == PING_TIMEOUT
      && Underway(host.View(), timeStart, Requests(host.sent), clock, base, began)
    }

    /** `net_set_timeout_handler` and `ping_start` */
    method PingStart(now: nat)
      requires Valid() && host.state == Continue && host.pingIp != NO_IP
      modifies this, host, host.txPacket, host.arpTxPacket
      ensures Attempting(now, old(Requests(host.sent)), now) && netTryCount == old(netTryCount)
      ensures host.View() == PingSend(old(host.View()), now)
      ensures host.sent == old(host.sent) + [RequestFrame(host.View())]
    {
      hide IsRequest, IsEchoRequest, PingFrame, NextHop, EtherHeader, ArpBody;
      timeHandler, timeStart, timeDelta := true, now, PING_TIMEOUT;
      ghost var h := host.View();
      ArpSafety.QueuedIsPing(h, now);
      host.PingSend(now);
      OwnRequestIsRequest(host.View());
      RequestsOne(old(host.sent), RequestFrame(host.View()));
    }

    /** `net_start_again` with a bounded number of retries. */
    method StartAgain(retrycnt: nat, p: Pass) returns (ret: int)
      requires Valid() && host.state == Fail
      modifies this, host`state
      ensures Valid()
      ensures if old(netTryCount) > retrycnt then host.state == Fail && ret == -110 && netTryCount == old(netTryCount)
              else netTryCount == old(netTryCount) + 1 && ret == p.initRet
                   && host.state == if p.wrap then Fail else Restart
    {
      if netTryCount > retrycnt {
        host.state := Fail;
        return -110;
      }
      netTryCount := netTryCount + 1;
      ret := p.initRet;
      if p.wrap {
        timeHandler, timeStart, timeDelta := true, p.t3, PING_TIMEOUT;
      } else {
        host.state := Restart;
      }
    }

    /** `arp_timeout_check` and the update of `time_start` that goes with it. */
    method CheckArp(p: Pass)
      requires host.Valid() && Started(host.View(), p.t0)
      modifies this`timeStart, host, host.arpTxPacket
      ensures host.Valid() && host.View() == TimedOut(old(host.View()), p.t0).0
      ensures host.sent == old(host.sent) + TimedOut(old(host.View()), p.t0).1
      ensures timeStart == if old(host.waitPacketIp) != NO_IP then p.t1 else old(timeStart)
    {
      var waiting := host.ArpTimeoutCheck(p.t0);
      if waiting {
        timeStart := p.t1;
      }
      assert old(host.sent) + [] == old(host.sent);
    }

    /** The handlers are cleared: `net_cleanup_loop`. */
    method Cleanup()
      modifies this`timeHandler
      ensures !timeHandler
    {
      timeHandler := false;
    }

    /** The timeout check of one pass; the handler is `ping_timeout_handler`. */
    method CheckTimeout(now: nat)
      requires Valid() && timeStart <= now
      modifies this`timeHandler, host`state
      ensures Valid()
      ensures if old(timeHandler) && now - timeStart > timeDelta then host.state == Fail && !timeHandler
              else host.state == old(host.state) && timeHandler == old(timeHandler)
    {
      if timeHandler && now - timeStart > timeDelta {
        timeHandler := false;
        host.state := Fail;
      }
    }

    /** The first half of a pass: ARP timeouts and received frames. */
    method Poll(p: Pass)
      requires host.Valid() && Started(host.View(), p.t0) && PassOk(p)
      modifies this`timeStart, host, host.txPacket, host.arpTxPacket
      ensures (forall f :: f in p.frames ==> Sane(f)) && host.Valid() && host.View() == Polled(old(host.View()), p).0
      ensures host.sent == old(host.sent) + Polled(old(host.View()), p).1
      ensures timeStart == WaitsFrom(old(host.View()), old(timeStart), p)
    {
      hide ReceiveAll, Sane, ArpTimeout;
      CheckArp(p);
      assert forall f :: f in p.frames ==> Deliverable(f);
      EthRx(p.frames);
    }

    /** The second half of a pass: ctrl-c, the timeout, and what becomes of the attempt. */
    method Decide(p: Pass, retrycnt: nat) returns (o: Outcome, ret: int)
      requires Valid() && timeHandler && timeDelta == PING_TIMEOUT && timeStart <= p.t2 && host.state != LoopState.Restart
      modifies this, host`state, host`waitPacketIp
      ensures Valid()
      ensures host.View() == old(host.View()).(state := host.state, waitPacketIp := if p.ctrlc then NO_IP else old(host.waitPacketIp))
      ensures o == Again ==> netTryCount == old(netTryCount) + 1 <= retrycnt + 1 && !p.wrap
      ensures o == Done ==> !timeHandler && Ends(p, host.state, old(netTryCount), retrycnt, ret)
      ensures o == GoOn <==> !p.ctrlc && old(host.state) == Continue && p.t2 - old(timeStart) <= 10000
      ensures o == GoOn ==> host.state == Continue && ret == 0 && timeHandler && timeDelta == old(timeDelta)
                            && timeStart == old(timeStart) && netTryCount == old(netTryCount)
      ensures !p.ctrlc ==> (host.state == Success <==> old(host.state) == Success && p.t2 - old(timeStart) <= 10000)
      ensures !p.ctrlc && host.state == Success ==> o == Done && ret == 0
      ensures host.state == Continue ==> old(host.state) == Continue
      ensures p.ctrlc ==> host.state == old(host.state)
    {
      hide IsEchoRequest;
      ret := 0;
      if p.ctrlc {
        host.waitPacketIp := NO_IP;
        Cleanup();
        return Done, -4;
      }
      CheckTimeout(p.t2);
      if host.state == Fail {
        ret := StartAgain(retrycnt, p);
      }
      match host.state
      case Restart => o := Again;
      case Success => Cleanup(); o, ret := Done, 0;
      case Fail => Cleanup(); o := Done;
      case Continue => o := GoOn;
    }

    /**
     One pass of the `for (;;)` loop. Unless ctrl-c is pressed it ends the ping with success exactly if
     an echo reply is among the frames and the ten seconds are not over.
     */
    method OnePass(p: Pass, retrycnt: nat, ghost clock: nat, ghost base: nat, ghost began: nat)
      returns (o: Outcome, ret: int)
      requires Attempting(clock, base, began) && clock < p.t0 && PassOk(p)
      modifies this, host, host.txPacket, host.arpTxPacket
      ensures Valid() && Requests(host.sent) <= base + ARP_TIMEOUT_COUNT - 1 && SameConfig(old(host.View()), host.View())
      ensures Handled(old(host.View()), old(host.sent), p, host.View(), host.sent)
      ensures o == GoOn ==> Attempting(p.t3, base, began) && netTryCount == old(netTryCount) && ret == 0 && !p.ctrlc
      ensures o == GoOn ==> LexLess(Left(host.View(), timeStart, p.t3), Left(old(host.View()), old(timeStart), clock))
      ensures o == Again ==> netTryCount == old(netTryCount) + 1 <= retrycnt + 1 && !p.wrap
      ensures host.state == Success ==> AnyEchoReply(old(host.View()), p.frames)
      ensures o == Done ==> !timeHandler && Ends(p, host.state, old(netTryCount), retrycnt, ret)
      ensures Decided(old(host.View()), p, if old(host.waitPacketIp) != [0, 0, 0, 0] then p.t1 else old(timeStart),
                      o, host.state, ret)
      ensures GivesUp(old(host.View()), p.t0) ==> p.t0 > began + 20000
      ensures began <= WaitsFrom(old(host.View()), old(timeStart), p)
    {
      hide IsRequest, IsEchoRequest, AnyEchoReply, Requests, Polled, LexLess, Left;
      ghost var h, sent, from := host.View(), host.sent, WaitsFrom(host.View(), timeStart, p);
      PollStep(h, timeStart, sent, p, clock, base, began);
      Poll(p);
      ghost var k := host.View();
      o, ret := Decide(p, retrycnt);
      if o == GoOn {
        TimePasses(k, from, Requests(host.sent), p, base, began);
        LaterIsLess(Left(h, old(timeStart), clock), k, from, p);
      }
    }

    /** Pass `n` of an attempt that began in pass `first` on host `h0`. */
    method NextPass(env: nat -> Pass, n: nat, retrycnt: nat, ghost first: nat, ghost start: nat, ghost clock: nat,
                    ghost base: nat, ghost h0: Host, ghost sent0: seq<seq<byte>>)
      returns (o: Outcome, ret: int)
      requires Attempting(clock, base, start) && clock < env(n).t0 && Ticking(env) && SameConfig(h0, host.View())
      requires OnTime(h0, env, first, start, n, GoOn, Continue, 0)
      requires Sends(h0, env, first, n, sent0, host.View(), host.sent, true)
      modifies this, host, host.txPacket, host.arpTxPacket
      ensures Valid() && Requests(host.sent) <= base + ARP_TIMEOUT_COUNT - 1 && SameConfig(h0, host.View())
      ensures o == GoOn ==> Attempting(env(n).t3, base, start) && netTryCount == old(netTryCount) && ret == 0
      ensures o == GoOn ==> LexLess(Left(host.View(), timeStart, env(n).t3), Left(old(host.View()), old(timeStart), clock))
      ensures o == Again ==> netTryCount == old(netTryCount) + 1 <= retrycnt + 1 && !env(n).wrap
      ensures o == Done ==> Ends(env(n), host.state, old(netTryCount), retrycnt, ret)
      ensures host.state == Success ==> o != GoOn && AnyEchoReply(h0, env(n).frames)
      ensures OnTime(h0, env, first, start, n + 1, o, host.state, ret)
      ensures Sends(h0, env, first, n + 1, sent0, host.View(), host.sent, o == GoOn)
    {
      hide IsRequest, IsEchoRequest, AnyEchoReply, Requests, Ends, Decided, OnTime, GivesUp, LexLess, Left;
      var p := env(n);
      ghost var h, sent, from := host.View(), host.sent, WaitsFrom(host.View(), timeStart, p);
      assert first <= n;
      hide Sends;
      o, ret := OnePass(p, retrycnt, clock, base, start);
      StaysOnTime(h0, h, env, first, start, n, from, o, host.state, ret);
      PassAdds(h0, env, first, n, sent0, h, sent, host.View(), host.sent, o == GoOn);
      SameSuccess(h0, h, p.frames);
    }

    /** The `for (;;)` loop, from pass `first` on, until the attempt ends one way or another. */
    method Attempt(env: nat -> Pass, first: nat, start: nat, retrycnt: nat, ghost base: nat)
      returns (o: Outcome, ret: int, passes: nat)
      requires Attempting(start, base, start) && start < env(first).t0 && Ticking(env)
      modifies this, host, host.txPacket, host.arpTxPacket
      ensures Valid() && Requests(host.sent) <= base + ARP_TIMEOUT_COUNT - 1 && SameConfig(old(host.View()), host.View())
      ensures first < passes && o != GoOn
      ensures o == Again ==> netTryCount == old(netTryCount) + 1 <= retrycnt + 1 && !env(passes - 1).wrap
      ensures o == Done ==> Ends(env(passes - 1), host.state, old(netTryCount), retrycnt, ret)
      ensures host.state == Success ==> AnyEchoReply(old(host.View()), env(passes - 1).frames)
      ensures OnTime(old(host.View()), env, first, start, passes, o, host.state, ret)
      ensures Sends(old(host.View()), env, first, passes, old(host.sent), host.View(), host.sent, false)
    {
      hide IsRequest, IsEchoRequest, AnyEchoReply, Requests, Ends, PassOk, OnTime, Sends, Left, WaitsWithPing;
      ghost var h0, sent0 := host.View(), host.sent;
      var clock: nat := start;
      passes, o, ret := first, GoOn, 0;
      NothingYet(h0, env, first, start, sent0);
      while o == GoOn
        invariant Valid() && SameConfig(h0, host.View())
        invariant first <= passes && clock < env(passes).t0
        invariant o == GoOn ==> Attempting(clock, base, start) && netTryCount == old(netTryCount) && ret == 0
        invariant o != GoOn ==> first < passes
        invariant o == Again ==> netTryCount == old(netTryCount) + 1 <= retrycnt + 1 && !env(passes - 1).wrap
        invariant Requests(host.sent) <= base + ARP_TIMEOUT_COUNT - 1
        invariant o == Done ==> Ends(env(passes - 1), host.state, old(netTryCount), retrycnt, ret)
        invariant host.state == Success ==> o != GoOn && AnyEchoReply(h0, env(passes - 1).frames)
        invariant OnTime(h0, env, first, start, passes, o, host.state, ret)
        invariant Sends(h0, env, first, passes, sent0, host.View(), host.sent, o == GoOn)
        decreases o == GoOn, Left(host.View(), timeStart, clock).0, Left(host.View(), timeStart, clock).1,
                  Left(host.View(), timeStart, clock).2
      {
        ghost var l := Left(host.View(), timeStart, clock);
        o, ret := NextPass(env, passes, retrycnt, first, start, clock, base, h0, sent0);
        clock := env(passes).t3;
        assert clock < env(passes + 1).t0;
        passes := passes + 1;
        assert o == GoOn ==> LexLess(Left(host.View(), timeStart, clock), l);
      }
    }

    /** From the `restart` label to the end of the attempt. */
    method OneAttempt(env: nat -> Pass, first: nat, now: nat, retrycnt: nat, ghost h0: Host)
      returns (o: Outcome, ret: int, passes: nat)
      requires Valid() && SameConfig(h0, host.View()) && host.pingIp != NO_IP && Ticking(env) && now < env(first).t0
      modifies this, host, host.txPacket, host.arpTxPacket
      ensures Valid() && SameConfig(h0, host.View())
      ensures Requests(host.sent) <= old(Requests(host.sent)) + ARP_TIMEOUT_COUNT - 1
      ensures first < passes && o != GoOn
      ensures o == Again ==> netTryCount == old(netTryCount) + 1 <= retrycnt + 1 && !env(passes - 1).wrap
      ensures o == Done ==> Ends(env(passes - 1), host.state, old(netTryCount), retrycnt, ret)
      ensures host.state == Success ==> AnyEchoReply(h0, env(passes - 1).frames)
      ensures OnTime(h0, env, first, now, passes, o, host.state, ret)
      ensures SentBy(old(host.View()), env, first, now, passes, old(host.sent), host.sent)
    {
      hide IsRequest, IsEchoRequest, AnyEchoReply, Requests, Ends, OnTime, Sends, RequestFrame, Underway;
      ghost var h, sent := host.View(), host.sent;
      host.state := Continue;
      ghost var base := Requests(host.sent);
      PingStart(now);
      ghost var g, sent1 := host.View(), host.sent;
      o, ret, passes := Attempt(env, first, now, retrycnt, base);
      SentAll(g, env, first, passes, sent1, host.View(), host.sent);
      SameTimes(h0, g, env, first, now, passes, o, host.state, ret);
      SameSuccess(h0, g, env(passes - 1).frames);
    }

    /**
     `net_loop(PING)` from its `restart` label on, until an attempt is the last; that one begins in
     pass `first`.
     */
    method Attempts(env: nat -> Pass, start: nat, retrycnt: nat)
      returns (ret: int, restarts: nat, passes: nat, ghost first: nat)
      requires Valid() && host.pingIp != NO_IP && host.ip != NO_IP && netTryCount == 1
      requires Ticking(env) && start < env(0).t0
      modifies this, host, host.txPacket, host.arpTxPacket
      ensures Valid() && restarts <= retrycnt && first < passes && (restarts == 0 ==> first == 0)
      ensures Requests(host.sent) <= old(Requests(host.sent)) + (ARP_TIMEOUT_COUNT - 1) * (restarts + 1)
      ensures Ends(env(passes - 1), host.state, restarts + 1, retrycnt, ret)
      ensures host.state == Success ==> AnyEchoReply(old(host.View()), env(passes - 1).frames)
      ensures restarts > 0 ==> exists k: nat {:trigger env(k)} :: k < passes && !env(k).wrap
      ensures Answered(old(host.View()), env, 0, start, restarts, passes, host.state, ret)
      ensures Answered(old(host.View()), env, first, Begins(env, start, first), 0, passes, host.state, ret)
      ensures restarts == 0 ==> SentBy(old(host.View()), env, 0, start, passes, old(host.sent), host.sent)
    {
      hide IsRequest, IsEchoRequest, AnyEchoReply, Requests, Ends, PassOk, Answered, OnTime, SentBy;
      ghost var h0 := host.View();
      passes, restarts, first := 0, 0, 0;
      ghost var reason: nat := 0;
      while true
        invariant Valid() && SameConfig(h0, host.View()) && h0.pingIp != NO_IP && h0.ip != NO_IP
        invariant netTryCount == restarts + 1 <= retrycnt + 1
        invariant restarts > 0 ==> reason < passes && !env(reason).wrap
        invariant restarts == 0 ==> passes == 0 && host.View() == h0 && host.sent == old(host.sent)
        invariant restarts > 0 ==> NeverReplied(h0, env, start)
        invariant Requests(host.sent) <= old(Requests(host.sent)) + (ARP_TIMEOUT_COUNT - 1) * restarts
        decreases retrycnt + 1 - netTryCount
      {
        first := passes;
        var now := Begins(env, start, passes);
        assert now < env(passes).t0;
        var o;
        o, ret, passes := OneAttempt(env, passes, now, retrycnt, h0);
        IsAnswered(h0, env, start, first, restarts, now, passes, o, host.state, ret);
        if o == Done {
          return;
        }
        reason := passes - 1;
        restarts := restarts + 1;
      }
    }

    /**
     `net_loop(PING)`, on a host with a MAC address. It ends; it restarts at most `retrycnt` times; each
     attempt sends at most four ARP requests. Its caller takes a result that is not negative for an
     answer. An echo reply within ten seconds of the start, or of the beginning of the last attempt, is
     one. Without an echo reply the result is not negative exactly if the last pass failed when all
     devices had been tried, the device came up again, and the retries were not used up.
     */
    method Run(env: nat -> Pass, start: nat, initRet: int, retrycnt: nat)
      returns (ret: int, restarts: nat, passes: nat, ghost first: nat)
      requires Valid() && host.mac != NULL_MAC && Ticking(env) && start < env(0).t0
      modifies this, host, host.txPacket, host.arpTxPacket
      ensures Valid() && restarts <= retrycnt && (restarts == 0 ==> first == 0)
      ensures Requests(host.sent) <= old(Requests(host.sent)) + (ARP_TIMEOUT_COUNT - 1) * (restarts + 1)
      ensures initRet < 0 ==> ret == initRet && host.sent == old(host.sent)
      ensures initRet >= 0 && (old(host.pingIp) == NO_IP || old(host.ip) == NO_IP) ==> ret == -19 && host.sent == old(host.sent)
      ensures initRet >= 0 && old(host.pingIp) != NO_IP && old(host.ip) != NO_IP ==>
                && first < passes && Ends(env(passes - 1), host.state, restarts + 1, retrycnt, ret)
                && (host.state == Success ==> AnyEchoReply(old(host.View()), env(passes - 1).frames))
                && (!Replied(old(host.View()), env, passes) ==> (ret >= 0 <==> FalselyAlive(env(passes - 1), restarts, retrycnt)))
                && (ret >= 0 && retrycnt == 0 ==> Replied(old(host.View()), env, passes))
                && Answered(old(host.View()), env, 0, start, restarts, passes, host.state, ret)
                && Answered(old(host.View()), env, first, Begins(env, start, first), 0, passes, host.state, ret)
                && (restarts == 0 ==> SentBy(old(host.View()), env, 0, start, passes, old(host.sent), host.sent))
      ensures (forall k: nat {:trigger env(k)} :: k < passes ==> env(k).wrap) ==> restarts == 0
    {
      hide IsRequest, IsEchoRequest, AnyEchoReply, Requests, Ends, FalselyAlive, PassOk, Answered, SentBy;
      ghost var h0 := host.View();
      netTryCount, passes, restarts, first := 1, 0, 0, 0;
      ret := initRet;
      if ret < 0 {
        return;
      }
      if host.pingIp == NO_IP || host.ip == NO_IP {
        host.state := Continue;
        return -19, restarts, passes, first;
      }
      ret, restarts, passes, first := Attempts(env, start, retrycnt);
      WhatTheCallerSees(env(passes - 1), host.state, restarts, retrycnt, ret, Replied(h0, env, passes));
    }
  }

  lemma TimePasses(h: Host, timeStart: nat, requests: nat, p: Pass, base: nat, began: nat)
    requires Underway(h, timeStart, requests, p.t1, base, began) && PassOk(p)
    ensures Underway(h, timeStart, requests, p.t3, base, began)
  {
    hide WaitsWithPing, Ready;
  }

  lemma LaterIsLess(b: (nat, int, int), h: Host, timeStart: nat, p: Pass)
    requires Advances(b, Left(h, timeStart, p.t1)) && PassOk(p) && p.t2 - timeStart <= 10000
    ensures LexLess(Left(h, timeStart, p.t3), b)
  {
  }

  /**
   How a pass that waits from time `from` decides, unless ctrl-c is pressed: success exactly on an echo
   reply in time, and no decision exactly if there is neither a reply nor the end of any waiting.
   */
  ghost predicate Decided(h: Host, p: Pass, from: nat, o: Outcome, state: LoopState, ret: int) {
    !p.ctrlc ==>
      && (state == Success <==> AnyEchoReply(h, p.frames) && p.t2 - from <= 10000)
      && (state == Success ==> o == Done && ret == 0)
      && (o == GoOn <==> !AnyEchoReply(h, p.frames) && p.t2 - from <= 10000 && !GivesUp(h, p.t0))
  }

  /** What one pass does to a host, apart from how its state ends the loop and what ctrl-c cancels. */
  ghost predicate Handled(h: Host, sent: seq<seq<byte>>, p: Pass, g: Host, sent': seq<seq<byte>>) {
    && Ready(h) && Started(h, p.t0) && (forall f :: f in p.frames ==> Sane(f))
    && var (k, out) := Polled(h, p);
    sent' == sent + out && (g.state == Continue ==> k.state == Continue) && g == k.(state := g.state, waitPacketIp := if p.ctrlc then NO_IP else k.waitPacketIp)
  }

  /** The passes up to `n` have made `h0` into `g`, as long as the attempt goes on, and sent what has been sent. */
  ghost predicate Sends(h0: Host, env: nat -> Pass, first: nat, n: nat, sent0: seq<seq<byte>>,
                        g: Host, sent: seq<seq<byte>>, goesOn: bool) {
    && Ready(h0) && Ticking(env) && first <= n && Started(h0, env(first).t0)
    && sent == sent0 + Passes(h0, env, first, n).1 && (goesOn ==> g == Passes(h0, env, first, n).0)
  }

  lemma PassAdds(h0: Host, env: nat -> Pass, first: nat, n: nat, sent0: seq<seq<byte>>, h: Host, sent: seq<seq<byte>>,
                 g: Host, sent': seq<seq<byte>>, goesOn: bool)
    requires Sends(h0, env, first, n, sent0, h, sent, true) && Handled(h, sent, env(n), g, sent')
    requires goesOn ==> g.state == Continue && !env(n).ctrlc
    ensures Sends(h0, env, first, n + 1, sent0, g, sent', goesOn)
  {
    hide Polled;
    var out := Passes(h0, env, first, n).1;
    var more := Polled(h, env(n)).1;
    assert sent0 + out + more == sent0 + (out + more);
  }

  lemma SentAll(h0: Host, env: nat -> Pass, first: nat, n: nat, sent0: seq<seq<byte>>, g: Host, sent: seq<seq<byte>>)
    requires Sends(h0, env, first, n, sent0, g, sent, false)
    ensures Ready(h0) && Ticking(env) && first <= n && Started(h0, env(first).t0)
    ensures sent == sent0 + Passes(h0, env, first, n).1
  {
  }

  /** No pass up to `n` has brought a reply in time, or it has ended the attempt with success. */
  ghost predicate OnTime(h: Host, env: nat -> Pass, first: nat, began: nat, n: nat, o: Outcome, state: LoopState, ret: int) {
    forall k: nat :: RepliedInTime(h, env, first, began, k) ==>
      if o == GoOn then n <= k else n <= k + 1 && o == Done && state == Success && ret == 0
  }

  lemma NothingYet(h: Host, env: nat -> Pass, first: nat, began: nat, sent: seq<seq<byte>>)
    requires Ready(h) && Ticking(env) && Started(h, env(first).t0)
    ensures OnTime(h, env, first, began, first, GoOn, h.state, 0)
    ensures Sends(h, env, first, first, sent, h, sent, true)
  {
    assert sent + [] == sent;
  }

  /** A pass before the reply in time does not end the attempt, and the one that brings it does. */
  lemma StaysOnTime(h0: Host, h: Host, env: nat -> Pass, first: nat, began: nat, n: nat, from: nat,
                    o: Outcome, state: LoopState, ret: int)
    requires Ticking(env) && first <= n && SameConfig(h0, h) && began <= from
    requires GivesUp(h, env(n).t0) ==> env(n).t0 > began + 20000
    requires OnTime(h0, env, first, began, n, GoOn, Continue, 0) && Decided(h, env(n), from, o, state, ret)
    ensures OnTime(h0, env, first, began, n + 1, o, state, ret)
  {
    SameSuccess(h0, h, env(n).frames);
    hide AnyEchoReply, GivesUp;
    forall k: nat | RepliedInTime(h0, env, first, began, k)
      ensures if o == GoOn then n + 1 <= k else n + 1 <= k + 1 && o == Done && state == Success && ret == 0
    {
      assert n <= k;
      ClockRuns(env, n, k);
      assert !env(n).ctrlc;
    }
  }

  lemma SameSuccess(h: Host, g: Host, frames: seq<seq<byte>>)
    requires SameConfig(h, g)
    ensures AnyEchoReply(h, frames) <==> AnyEchoReply(g, frames)
  {
    forall f
      ensures Wire.IsEchoReply(h, f) <==> Wire.IsEchoReply(g, f)
    {
      SameReplies(h, g, f);
    }
    hide Wire.IsEchoReply;
  }

  lemma SameTimes(h: Host, g: Host, env: nat -> Pass, first: nat, began: nat, n: nat, o: Outcome, state: LoopState, ret: int)
    requires SameConfig(h, g) && OnTime(g, env, first, began, n, o, state, ret)
    ensures OnTime(h, env, first, began, n, o, state, ret)
  {
    forall k: nat
      ensures RepliedInTime(h, env, first, began, k) <==> RepliedInTime(g, env, first, began, k)
    {
      SameSuccess(h, g, env(k).frames);
      hide AnyEchoReply;
    }
  }

  /** When the attempt begins whose first pass is `first`. */
  function Begins(env: nat -> Pass, start: nat, first: nat): nat {
    if first == 0 then start else env(first - 1).t3
  }

  /** A reply in time to the attempt that begins in pass `first` ends the loop, with success and the result 0. */
  ghost predicate Answered(h: Host, env: nat -> Pass, first: nat, began: nat, restarts: nat, passes: nat,
                           state: LoopState, ret: int) {
    forall k: nat :: RepliedInTime(h, env, first, began, k) ==>
      restarts == 0 && passes <= k + 1 && state == Success && ret == 0
  }

  /** No reply comes in time to the first attempt. */
  ghost predicate NeverReplied(h: Host, env: nat -> Pass, start: nat) {
    forall k: nat :: !RepliedInTime(h, env, 0, start, k)
  }

  /** An attempt that is not the last has had no reply in time, and the last one has if there is one. */
  lemma IsAnswered(h: Host, env: nat -> Pass, start: nat, first: nat, restarts: nat, began: nat, passes: nat,
                   o: Outcome, state: LoopState, ret: int)
    requires OnTime(h, env, first, began, passes, o, state, ret) && o != GoOn
    requires if restarts == 0 then first == 0 && began == start else NeverReplied(h, env, start)
    ensures o == Again ==> NeverReplied(h, env, start)
    ensures o == Done ==> Answered(h, env, 0, start, restarts, passes, state, ret)
    ensures o == Done ==> Answered(h, env, first, began, 0, passes, state, ret)
  {
    hide RepliedInTime;
  }

  /** What an attempt sends: the request that starts the ping, and what its passes send. */
  ghost predicate SentBy(h: Host, env: nat -> Pass, first: nat, now: nat, passes: nat,
                         before: seq<seq<byte>>, sent: seq<seq<byte>>) {
    var g := PingSend(h.(state := Continue), now);
    && Ticking(env) && first <= passes && Started(g, env(first).t0)
    && sent == before + [RequestFrame(g)] + Passes(g, env, first, passes).1
  }

  /** What the loop returns when it ends in pass `p`, at its `tries`th attempt, in the given state. */
  ghost predicate Ends(p: Pass, state: LoopState, tries: nat, retrycnt: nat, ret: int) {
    if p.ctrlc then ret == -4
    else if state == Success then ret == 0
    else state == Fail && if tries > retrycnt then ret == -110 else p.wrap && ret == p.initRet
  }

  /** The ping has failed in pass `p`, and the result does not say so. */
  ghost predicate FalselyAlive(p: Pass, restarts: nat, retrycnt: nat) {
    !p.ctrlc && p.wrap && p.initRet >= 0 && restarts < retrycnt
  }

  lemma WhatTheCallerSees(p: Pass, state: LoopState, restarts: nat, retrycnt: nat, ret: int, replied: bool)
    requires Ends(p, state, restarts + 1, retrycnt, ret) && (state == Success ==> replied)
    ensures !replied ==> (ret >= 0 <==> FalselyAlive(p, restarts, retrycnt))
    ensures ret >= 0 && retrycnt == 0 ==> replied
  {
  }

  /** Nothing ever arrives, and after a failure there is only the same device to try again. */
  ghost predicate Silent(env: nat -> Pass) {
    forall k: nat {:trigger env(k)} :: env(k).frames == [] && !env(k).ctrlc && env(k).wrap && env(k).initRet == 0
  }

  /** With any retries at all, such a ping ends as an answered one does. */
  method SilencePassesForAnAnswer(l: NetLoop, env: nat -> Pass, start: nat, retrycnt: nat) returns (ret: int)
    requires l.Valid() && l.host.mac != NULL_MAC && l.host.pingIp != NO_IP && l.host.ip != NO_IP
    requires Ticking(env) && start < env(0).t0 && Silent(env) && retrycnt > 0
    modifies l, l.host, l.host.txPacket, l.host.arpTxPacket
    ensures ret == 0
  {
    ghost var h := l.host.View();
    var restarts, passes;
    ghost var first;
    ret, restarts, passes, first := l.Run(env, start, 0, retrycnt);
    NobodyReplied(h, env, passes);
  }

  lemma NobodyReplied(h: Host, env: nat -> Pass, n: nat)
    requires Silent(env)
    ensures !Replied(h, env, n)
  {
  }

  /** Such a host and such a clock: one device, one retry, and a result of 0 although nobody is there. */
  method SilentPing() returns (ret: int)
    ensures ret == 0
  {
    var host := new NetHost([2, 0, 0, 0, 0, 1], [10, 0, 0, 1], [255, 255, 255, 0], NO_IP, 0xffff, 0xffff);
    host.pingIp := [10, 0, 0, 2];
    var l := new NetLoop(host);
    var env: nat -> Pass := (k: nat) => Pass(k + 1, k + 1, k + 1, k + 1, [], false, true, 0);
    ret := SilencePassesForAnAnswer(l, env, 0, 1);
  }
}
