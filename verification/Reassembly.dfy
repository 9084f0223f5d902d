/**
 Reassembly of whole datagrams by `Defragmenter`: exactly the safe arrival orders give the datagram
 back, at the arrival of the last missing fragment.
 */
module Reassembly {
  import opened Bytes
  import opened Options
  import opened HoleList
  import opened HoleMemory
  import opened FragmentOrder
  import opened Defragmentation

  /** `c` cuts the payload `p` into fragments. */
  ghost predicate CutsOf(c: seq<nat>, p: seq<byte>) {
    IsCuts(c) && c[Count(c)] == |p|
  }

  /** Fragment `k` of the datagram, in its packet; bytes after the payload (padding) are free. */
  ghost predicate IsFragmentOf(ip: seq<byte>, p: seq<byte>, c: seq<nat>, k: nat)
    requires CutsOf(c, p)
  {
    && k < Count(c) && |ip| >= IP_HDR_SIZE
    && PayloadStart(ip) == c[k] && PayloadLen(ip) == c[k + 1] - c[k]
    && (MoreFragments(ip) <==> k + 2 < |c|)
    && |ip| >= IP_HDR_SIZE + PayloadLen(ip)
    && (forall q: nat {:trigger p[q]} :: c[k] <= q < c[k + 1] ==> ip[IP_HDR_SIZE + q - c[k]] == p[q])
  }

  /**
   The same of the packet's octets, as section 3.1 of RFC 791 lays them out: total length, identification,
   offset in units of eight octets and the bit for more fragments; the other two flags and all other
   fields are free.
   */
  ghost predicate IsPacketOf(ip: seq<byte>, id: seq<byte>, p: seq<byte>, c: seq<nat>, k: nat)
    requires CutsOf(c, p)
  {
    && k + 1 < |c| && |ip| >= 20 + c[k + 1] - c[k]
    && ip[2] as int * 256 + ip[3] as int == 20 + c[k + 1] - c[k]
    && ip[4..6] == id
    && ip[6] as int % 32 * 256 + ip[7] as int == c[k] / 8
    && (ip[6] / 32 % 2 == 1 <==> k + 2 < |c|)
    && ip[20..20 + c[k + 1] - c[k]] == p[c[k]..c[k + 1]]
  }

  /** The code reads such packets as what they are. */
  lemma PacketIsFragment(ip: seq<byte>, id: seq<byte>, p: seq<byte>, c: seq<nat>, k: nat)
    requires CutsOf(c, p) && IsPacketOf(ip, id, p, c, k)
    ensures IsFragmentOf(ip, p, c, k) && IpId(ip) == id
  {
    HeaderOctets(ip);
    forall q: nat | c[k] <= q < c[k + 1]
      ensures ip[IP_HDR_SIZE + q - c[k]] == p[q]
    {
      assert p[c[k]..c[k + 1]][q - c[k]] == p[q];
      assert ip[20..20 + c[k + 1] - c[k]][q - c[k]] == ip[20 + q - c[k]];
    }
  }

  ghost predicate InPlace(b: seq<byte>, p: seq<byte>, c: seq<nat>, k: nat)
    requires CutsOf(c, p) && k < Count(c) && |b| == IP_PKTSIZE
  {
    forall q: nat {:trigger p[q]} :: c[k] <= q < c[k + 1] ==> b[IP_HDR_SIZE + q] == p[q]
  }

  /** Byte `v` is where a fragment other than the first begins, or the end of the payload. */
  ghost predicate IsCutAt(c: seq<nat>, v: nat) {
    exists k {:trigger c[k]} :: 0 < k < |c| && c[k] == v
  }

  /** The payload does not begin with what a lost hole's descriptor can leave in its place. */
  ghost predicate IsTelltale(p: seq<byte>, c: seq<nat>) {
    |p| >= 2 ==> !IsCutAt(c, Le16(p, 0))
  }

  /**
   What a run has reached: fragments `got` have arrived, the list takes `taken` for received, and
   `lost` says whether the hole at block 0 has been lost.
   */
  ghost predicate Progress(hs: seq<Hole>, b: seq<byte>, total: nat, p: seq<byte>, c: seq<nat>,
                           got: set<nat>, taken: set<nat>, lost: bool)
    requires CutsOf(c, p)
  {
    && |b| == IP_PKTSIZE && Describes(hs, c, taken) && got <= taken
    && (!lost ==>
      && taken == got
      && (forall k {:trigger k in got} :: k in got ==> InPlace(b, p, c, k))
      && (Count(c) - 1 in got ==> total == |p|))
    && (lost ==> 0 in taken && Count(c) > 1 && IsCutAt(c, Field(b, 0, LAST)))
  }

  /** Outside the holes and the fragment itself, memory is unchanged. */
  lemma StepLeaves(hs: seq<Hole>, b: seq<byte>, p: seq<byte>, c: seq<nat>, taken: set<nat>,
                   n: nat, ip: seq<byte>, b': seq<byte>, q: nat)
    requires CutsOf(c, p) && Describes(hs, c, taken) && n in taken && c[n] <= q < c[n + 1]
    requires |b| == |b'| == IP_PKTSIZE && IsFragment(ip, hs)
    requires PayloadAfter(b, b', hs, StepPacket(hs, ip).1, ip)
    requires StepPacket(hs, ip).1 == Dropped || !Holds(ip, q)
    ensures b'[IP_HDR_SIZE + q] == b[IP_HDR_SIZE + q]
  {
    ReceivedOutside(hs, c, taken, n, q);
    assert c[n + 1] <= c[Count(c)];
    assert !Covers(hs, q);
  }

  /** The data of a fragment that is stored is in place. */
  lemma FragmentLands(hs: seq<Hole>, b: seq<byte>, p: seq<byte>, c: seq<nat>, k: nat, ip: seq<byte>, b': seq<byte>)
    requires CutsOf(c, p) && |b| == |b'| == IP_PKTSIZE && IsFragmentOf(ip, p, c, k) && IsFragment(ip, hs)
    requires PayloadAfter(b, b', hs, StepPacket(hs, ip).1, ip) && StepPacket(hs, ip).1 != Dropped
    ensures InPlace(b', p, c, k)
  {
    hide Step, Fits;
    assert c[k + 1] <= c[Count(c)];
    forall q: nat | c[k] <= q < c[k + 1]
      ensures b'[IP_HDR_SIZE + q] == p[q]
    {
      assert Holds(ip, q);
    }
  }

  /** The data of another fragment stays in place. */
  lemma OthersStay(hs: seq<Hole>, b: seq<byte>, p: seq<byte>, c: seq<nat>, taken: set<nat>,
                   k: nat, ip: seq<byte>, b': seq<byte>, n: nat)
    requires CutsOf(c, p) && Describes(hs, c, taken) && n in taken && n < Count(c)
    requires |b| == |b'| == IP_PKTSIZE && IsFragmentOf(ip, p, c, k) && IsFragment(ip, hs)
    requires PayloadAfter(b, b', hs, StepPacket(hs, ip).1, ip)
    requires StepPacket(hs, ip).1 == Dropped || n != k
    requires InPlace(b, p, c, n)
    ensures InPlace(b', p, c, n)
  {
    assert n < k ==> c[n + 1] <= c[k];
    assert n > k ==> c[k + 1] <= c[n];
    hide Describes, Step, StepPacket, PayloadAfter, Fits, IsFragment, IsFragmentOf, CutsOf;
    forall q: nat | c[n] <= q < c[n + 1]
      ensures b'[IP_HDR_SIZE + q] == p[q]
    {
      StepLeaves(hs, b, p, c, taken, n, ip, b', q);
    }
  }

  /** Received data survives the step, and the arriving fragment's data is in place after it. */
  lemma StepKeepsData(hs: seq<Hole>, b: seq<byte>, p: seq<byte>, c: seq<nat>, got: set<nat>,
                      k: nat, ip: seq<byte>, b': seq<byte>, n: nat)
    requires CutsOf(c, p) && Describes(hs, c, got) && hs != [] && n < Count(c)
    requires |b| == |b'| == IP_PKTSIZE && IsFragmentOf(ip, p, c, k) && IsFragment(ip, hs)
    requires PayloadAfter(b, b', hs, StepPacket(hs, ip).1, ip)
    requires n in got + {k} && (n in got ==> InPlace(b, p, c, n))
    ensures InPlace(b', p, c, n)
  {
    hide Describes, Step, InPlace, PayloadAfter, Fits;
    ArrivalKeepsDescription(hs, c, got, k);
    if StepPacket(hs, ip).1 != Dropped && n == k {
      FragmentLands(hs, b, p, c, k, ip, b');
    } else {
      OthersStay(hs, b, p, c, got, k, ip, b', n);
    }
  }

  /** A safe arrival in a run that has lost nothing. */
  lemma SoundStep(hs: seq<Hole>, b: seq<byte>, total: u16, p: seq<byte>, c: seq<nat>, got: set<nat>,
                  k: nat, ip: seq<byte>, b': seq<byte>)
    requires CutsOf(c, p) && Progress(hs, b, total, p, c, got, got, false) && hs != []
    requires IsFragmentOf(ip, p, c, k) && IsFragment(ip, hs) && |b'| == IP_PKTSIZE
    requires PayloadAfter(b, b', hs, StepPacket(hs, ip).1, ip)
    requires SafeAt(got, k)
    ensures var (hs', verdict) := StepPacket(hs, ip);
            && Progress(hs', b', TotalAfter(total, verdict, ip), p, c, got + {k}, got + {k}, false)
            && (verdict == Finished <==> hs' == [])
  {
    hide Step, Loses, PayloadAfter, InPlace, Wf, Fits, FitsHole, InsideSome;
    ArrivalKeepsDescription(hs, c, got, k);
    if k !in got && FragmentLoses(hs, c, k) {
      LosesOnlyWhenUnsafe(hs, c, got, k);
    }
    forall n | n in got + {k}
      ensures InPlace(b', p, c, n)
    {
      StepKeepsData(hs, b, p, c, got, k, ip, b', n);
    }
  }

  /** An unsafe arrival: the descriptor of the lost hole stays where the first bytes should be. */
  lemma LosingStep(hs: seq<Hole>, b: seq<byte>, total: u16, p: seq<byte>, c: seq<nat>, got: set<nat>,
                   k: nat, ip: seq<byte>, b': seq<byte>)
    requires CutsOf(c, p) && Progress(hs, b, total, p, c, got, got, false) && hs != []
    requires IsFragmentOf(ip, p, c, k) && IsFragment(ip, hs) && |b'| == IP_PKTSIZE
    requires PacketLoses(hs, ip) ==> Field(b', 0, LAST) == hs[0].last
    requires !SafeAt(got, k)
    ensures var (hs', verdict) := StepPacket(hs, ip);
            && Progress(hs', b', TotalAfter(total, verdict, ip), p, c, got + {k}, Taken(hs, c, got, k), true)
            && (verdict == Finished <==> hs' == [])
  {
    ArrivalKeepsDescription(hs, c, got, k);
    UnsafeLoses(hs, c, got, k);
    LostHoleEndsAtCut(hs, c, got, k);
  }

  lemma LostHoleEndsAtCut(hs: seq<Hole>, c: seq<nat>, got: set<nat>, k: nat)
    requires IsCuts(c) && Describes(hs, c, got) && k < Count(c) && FragmentLoses(hs, c, k)
    ensures Count(c) > 1 && IsCutAt(c, hs[0].last)
  {
    hide Step;
    assert Before(hs[0], hs[1]) && hs[1] in hs && hs[0] in hs;
    var b :| 0 <= b < |c| - 1 && c[b] == 8 * hs[1].block;
    assert c[b] < c[Count(c)];
    var t := HoleStops(hs, c, got, hs[0]);
  }

  /** With the first fragment taken for received, nothing writes its first bytes. */
  lemma FirstBytesStay(hs: seq<Hole>, b: seq<byte>, p: seq<byte>, c: seq<nat>, taken: set<nat>,
                       k: nat, ip: seq<byte>, b': seq<byte>)
    requires CutsOf(c, p) && Describes(hs, c, taken) && 0 in taken && hs != []
    requires IsFragmentOf(ip, p, c, k) && IsFragment(ip, hs) && |b| == |b'| == IP_PKTSIZE
    requires PayloadAfter(b, b', hs, StepPacket(hs, ip).1, ip)
    ensures Field(b', 0, LAST) == Field(b, 0, LAST)
  {
    EmptyIffComplete(hs, c, taken);
    assert Count(c) > 1 && c[1] % 8 == 0 && c[0] < c[1];
    if k == 0 {
      FirstRepeatDropped(hs, c, taken);
    } else {
      assert c[1] <= c[k];
    }
    StepLeaves(hs, b, p, c, taken, 0, ip, b', 0);
    StepLeaves(hs, b, p, c, taken, 0, ip, b', 1);
  }

  /** Any arrival after a loss: the first bytes stay wrong. */
  lemma LostStep(hs: seq<Hole>, b: seq<byte>, total: u16, p: seq<byte>, c: seq<nat>, got: set<nat>, taken: set<nat>,
                 k: nat, ip: seq<byte>, b': seq<byte>)
    requires CutsOf(c, p) && Progress(hs, b, total, p, c, got, taken, true) && hs != []
    requires IsFragmentOf(ip, p, c, k) && IsFragment(ip, hs) && |b'| == IP_PKTSIZE
    requires PayloadAfter(b, b', hs, StepPacket(hs, ip).1, ip)
    ensures var (hs', verdict) := StepPacket(hs, ip);
            && Progress(hs', b', TotalAfter(total, verdict, ip), p, c, got + {k}, taken + {k}, true)
            && (verdict == Finished <==> hs' == [])
  {
    ArrivalKeepsDescription(hs, c, taken, k);
    if k !in taken && FragmentLoses(hs, c, k) {
      LosesOnlyWhenUnsafe(hs, c, taken, k);
    }
    FirstBytesStay(hs, b, p, c, taken, k, ip, b');
  }

  lemma StepProgress(hs: seq<Hole>, b: seq<byte>, total: u16, p: seq<byte>, c: seq<nat>,
                     got: set<nat>, taken: set<nat>, lost: bool,
                     k: nat, ip: seq<byte>, b': seq<byte>)
      returns (taken': set<nat>, lost': bool)
    requires CutsOf(c, p) && Progress(hs, b, total, p, c, got, taken, lost) && hs != []
    requires IsFragmentOf(ip, p, c, k) && IsFragment(ip, hs) && |b'| == IP_PKTSIZE
    requires PayloadAfter(b, b', hs, StepPacket(hs, ip).1, ip)
    requires PacketLoses(hs, ip) ==> Field(b', 0, LAST) == hs[0].last
    ensures var (hs', verdict) := StepPacket(hs, ip);
            && Progress(hs', b', TotalAfter(total, verdict, ip), p, c, got + {k}, taken', lost')
            && (verdict == Finished <==> hs' == [])
    ensures lost' <==> lost || !SafeAt(got, k)
  {
    lost' := lost || !SafeAt(got, k);
    if lost {
      taken' := taken + {k};
      LostStep(hs, b, total, p, c, got, taken, k, ip, b');
    } else if lost' {
      taken' := Taken(hs, c, got, k);
      LosingStep(hs, b, total, p, c, got, k, ip, b');
    } else {
      taken' := got + {k};
      SoundStep(hs, b, total, p, c, got, k, ip, b');
    }
  }

  ghost function Got(order: seq<nat>, n: nat): set<nat>
    requires n <= |order|
  {
    set k | k in order[..n]
  }

  lemma GotNext(order: seq<nat>, n: nat)
    requires n < |order|
    ensures Got(order, n + 1) == Got(order, n) + {order[n]}
  {
    assert order[..n + 1] == order[..n] + [order[n]];
  }

  /** No arrival does harm. */
  ghost predicate SafeOrder(order: seq<nat>) {
    SafeUpTo(order, |order|)
  }

  ghost predicate SafeUpTo(order: seq<nat>, n: nat)
    requires n <= |order|
  {
    forall i: nat {:trigger SafeArrival(order, i)} :: i < n ==> SafeArrival(order, i)
  }

  ghost predicate SafeArrival(order: seq<nat>, i: nat)
    requires i < |order|
  {
    SafeAt(Got(order, i), order[i])
  }

  ghost predicate Pending(c: seq<nat>, order: seq<nat>, i: nat)
    requires |c| >= 2 && i <= |order|
  {
    !Complete(c, Got(order, i))
  }

  /** The arrivals `pkts` are packets with fragments of one datagram, in the given order, until it is complete. */
  ghost predicate IsArrival(pkts: seq<seq<byte>>, id: seq<byte>, p: seq<byte>, c: seq<nat>, order: seq<nat>) {
    && CutsOf(c, p) && |order| == |pkts| > 0
    && (forall i {:trigger pkts[i]} :: 0 <= i < |pkts| ==> IsPacketOf(pkts[i], id, p, c, order[i]))
    && (forall i: nat {:trigger Pending(c, order, i)} :: i < |order| ==> Pending(c, order, i))
  }

  /** The datagram's payload has come back, with its length. */
  ghost predicate Delivered(r: Option<nat>, b: seq<byte>, p: seq<byte>) {
    r == Some(|p| + IP_HDR_SIZE) && |b| == IP_PKTSIZE && IP_HDR_SIZE + |p| <= |b|
    && b[IP_HDR_SIZE..IP_HDR_SIZE + |p|] == p
  }

  lemma PlacedIsDelivered(b: seq<byte>, p: seq<byte>, c: seq<nat>)
    requires CutsOf(c, p) && |b| == IP_PKTSIZE
    requires forall k: nat :: k < Count(c) ==> InPlace(b, p, c, k)
    ensures b[IP_HDR_SIZE..IP_HDR_SIZE + |p|] == p
  {
    forall q: nat | q < |p|
      ensures b[IP_HDR_SIZE + q] == p[q]
    {
      var k := FragmentAt(c, q);
      assert InPlace(b, p, c, k);
    }
  }

  /** The fragment that holds byte `q`. */
  lemma FragmentAt(c: seq<nat>, q: nat) returns (k: nat)
    requires IsCuts(c) && q < c[Count(c)]
    ensures k < Count(c) && c[k] <= q < c[k + 1]
  {
    k := 0;
    while c[k + 1] <= q
      invariant k < Count(c) && c[k] <= q
      decreases Count(c) - k
    {
      k := k + 1;
    }
  }

  /** What is in memory when no hole is left. */
  lemma FinishedOutcome(b: seq<byte>, total: nat, p: seq<byte>, c: seq<nat>,
                        got: set<nat>, taken: set<nat>, lost: bool)
    requires CutsOf(c, p) && Progress([], b, total, p, c, got, taken, lost)
    ensures !lost ==> Complete(c, got) && Delivered(Some(total + IP_HDR_SIZE), b, p)
    ensures lost && IsTelltale(p, c) ==> !Delivered(Some(total + IP_HDR_SIZE), b, p)
  {
    EmptyIffComplete([], c, taken);
    if !lost {
      forall k: nat | k < Count(c)
        ensures InPlace(b, p, c, k)
      {
        assert k in got;
      }
      PlacedIsDelivered(b, p, c);
    } else if Delivered(Some(total + IP_HDR_SIZE), b, p) {
      assert c[0] < c[1] < c[Count(c)];
      var q := b[IP_HDR_SIZE..IP_HDR_SIZE + |p|];
      assert q[0] == b[At(0, LAST)] && q[1] == b[At(0, LAST) + 1];
    }
  }

  /** The fragment fits the holes it meets. */
  lemma ArrivalFits(hs: seq<Hole>, p: seq<byte>, c: seq<nat>, taken: set<nat>, k: nat, ip: seq<byte>)
    requires CutsOf(c, p) && Describes(hs, c, taken) && IsFragmentOf(ip, p, c, k)
    ensures IsFragment(ip, hs) && PayloadStart(ip) + PayloadLen(ip) <= MAX_PAYLOAD
  {
    hide Describes, Fits, PayloadStart, PayloadLen, MoreFragments;
    DescribesFits(hs, c, taken, k);
    assert c[k] < c[k + 1] <= c[Count(c)];
    assert k + 2 < |c| ==> c[k + 1] < c[Count(c)];
  }

  lemma ProgressFits(hs: seq<Hole>, b: seq<byte>, total: nat, p: seq<byte>, c: seq<nat>,
                     got: set<nat>, taken: set<nat>, lost: bool, k: nat, ip: seq<byte>)
    requires CutsOf(c, p) && IsFragmentOf(ip, p, c, k) && Progress(hs, b, total, p, c, got, taken, lost)
    ensures |ip| >= IP_HDR_SIZE && PayloadLen(ip) > 0 && |b| == IP_PKTSIZE
    ensures IsFragment(ip, hs) && PayloadStart(ip) + PayloadLen(ip) <= MAX_PAYLOAD
  {
    hide Describes;
    assert c[k] < c[k + 1];
    ArrivalFits(hs, p, c, taken, k, ip);
  }

  /** What the run has reached, in the state of the defragmenter; a datagram is started by its first arrival. */
  ghost predicate Reached(d: Defragmenter, id: seq<byte>, p: seq<byte>, c: seq<nat>,
                          got: set<nat>, taken: set<nat>, lost: bool)
    requires d.pktBuff.Length == IP_PKTSIZE && CutsOf(c, p)
    reads d, d.pktBuff
  {
    && (if d.Restarts(id) then got == taken == {} && !lost else d.Valid())
    && Progress(ListFor(d.Restarts(id), d.holes), d.pktBuff[..],
                if d.Restarts(id) then UNKNOWN_END else d.totalLen, p, c, got, taken, lost)
  }

  lemma HolesAreLeft(d: Defragmenter, id: seq<byte>)
    requires d.pktBuff.Length == IP_PKTSIZE && (d.Restarts(id) || d.Valid())
    ensures ListFor(d.Restarts(id), d.holes) != []
  {
  }

  /** One arrival of the run. */
  method Arrive(d: Defragmenter, ip: seq<byte>, ghost p: seq<byte>, ghost c: seq<nat>, ghost k: nat,
                ghost got: set<nat>, ghost taken: set<nat>, ghost lost: bool)
    returns (r: Option<nat>, ghost taken': set<nat>, ghost lost': bool)
    requires d.pktBuff.Length == IP_PKTSIZE && CutsOf(c, p) && IsFragmentOf(ip, p, c, k)
    requires Reached(d, IpId(ip), p, c, got, taken, lost)
    modifies d, d.pktBuff
    ensures lost' <==> lost || !SafeAt(got, k)
    ensures r.None? ==> Reached(d, IpId(ip), p, c, got + {k}, taken', lost') && !d.Restarts(IpId(ip))
    ensures r.Some? ==> Progress([], d.pktBuff[..], d.totalLen, p, c, got + {k}, taken', lost')
                        && r.value == d.totalLen + IP_HDR_SIZE
    ensures d.pktBuff[..IP_HDR_SIZE] == HeaderAfter(if old(d.Restarts(IpId(ip))) then ip[..IP_HDR_SIZE]
                                                    else old(d.pktBuff[..IP_HDR_SIZE]), r, d.totalLen)
    ensures d.pktBuff[4..6] == IpId(ip)
  {
    hide Progress, IsFragment, PayloadAfter, StepPacket, PacketLoses, Listed, SafeAt, Field;
    ghost var starts, b := d.Restarts(IpId(ip)), d.pktBuff[..];
    ghost var hs, total := ListFor(starts, d.holes), if starts then UNKNOWN_END else d.totalLen;
    HolesAreLeft(d, IpId(ip));
    ProgressFits(hs, b, total, p, c, got, taken, lost, k, ip);
    r := d.Defragment(ip);
    taken', lost' := StepProgress(hs, b, total, p, c, got, taken, lost, k, ip, d.pktBuff[..]);
    assert d.pktBuff[4..6] == d.pktBuff[..IP_HDR_SIZE][4..6] == IpId(ip);
  }

  /** The header of the packet that came first, with `n` in network order for its length. */
  function FirstHeader(ip: seq<byte>, n: nat): (h: seq<byte>)
    requires |ip| >= 20 && n < 0x1_0000
    ensures |h| == 20
  {
    ip[..2] + [n / 256, n % 256] + ip[4..20]
  }

  lemma FirstHeaderIs(ip: seq<byte>, n: nat)
    requires |ip| >= 20 && n < 0x1_0000
    ensures Splice(ip[..IP_HDR_SIZE], 2, BeBytes(n)) == FirstHeader(ip, n)
  {
  }

  /** The run's result is right: nothing before the last missing fragment, then the datagram. */
  ghost predicate Right(r: Option<nat>, used: nat, b: seq<byte>, pkts: seq<seq<byte>>,
                        p: seq<byte>, c: seq<nat>, order: seq<nat>)
    requires CutsOf(c, p) && |b| == IP_PKTSIZE
    requires pkts != [] && |pkts[0]| >= IP_HDR_SIZE
  {
    if Complete(c, Got(order, |order|)) then
      && used == |pkts| && Delivered(r, b, p)
      && b[..20] == FirstHeader(pkts[0], |p|)
    else r == None
  }

  /** What a run that returns a packet returns. */
  lemma ReturnedOutcome(b: seq<byte>, total: u16, pkts: seq<seq<byte>>, id: seq<byte>, p: seq<byte>, c: seq<nat>,
                        order: seq<nat>, used: nat, taken: set<nat>, lost: bool)
    requires IsArrival(pkts, id, p, c, order) && 0 < used <= |pkts|
    requires Progress([], b, total, p, c, Got(order, used), taken, lost)
    requires b[..IP_HDR_SIZE] == Splice(pkts[0][..IP_HDR_SIZE], 2, BeBytes(total))
    requires lost <==> !SafeUpTo(order, used)
    ensures var r := Some(total + IP_HDR_SIZE);
            && (SafeOrder(order) ==> Right(r, used, b, pkts, p, c, order))
            && (!SafeOrder(order) && Complete(c, Got(order, |order|)) && IsTelltale(p, c) ==>
              !(used == |pkts| && Delivered(r, b, p)))
  {
    FinishedOutcome(b, total, p, c, Got(order, used), taken, lost);
    FirstHeaderIs(pkts[0], total);
    assert used < |pkts| ==> Pending(c, order, used);
  }

  /** The state of a run after `used` arrivals, none of which returned a packet. */
  ghost predicate Running(d: Defragmenter, pkts: seq<seq<byte>>, id: seq<byte>, p: seq<byte>, c: seq<nat>,
                          order: seq<nat>, used: nat, taken: set<nat>, lost: bool)
    requires d.pktBuff.Length == IP_PKTSIZE && CutsOf(c, p) && used <= |pkts| == |order|
    requires pkts != [] && |pkts[0]| >= IP_HDR_SIZE
    reads d, d.pktBuff
  {
    && Reached(d, id, p, c, Got(order, used), taken, lost)
    && (d.Restarts(id) <==> used == 0)
    && (used > 0 ==> d.pktBuff[..IP_HDR_SIZE] == pkts[0][..IP_HDR_SIZE])
    && (lost <==> !SafeUpTo(order, used))
  }

  method ArriveNext(d: Defragmenter, pkts: seq<seq<byte>>, ghost id: seq<byte>, ghost p: seq<byte>, ghost c: seq<nat>,
                    ghost order: seq<nat>, used: nat, ghost taken: set<nat>, ghost lost: bool)
    returns (r: Option<nat>, ghost taken': set<nat>, ghost lost': bool)
    requires d.pktBuff.Length == IP_PKTSIZE && CutsOf(c, p) && used < |pkts| == |order|
    requires IsFragmentOf(pkts[0], p, c, order[0])
    requires IsFragmentOf(pkts[used], p, c, order[used]) && IpId(pkts[used]) == id
    requires Running(d, pkts, id, p, c, order, used, taken, lost)
    modifies d, d.pktBuff
    ensures d.pktBuff[4..6] == id
    ensures r.None? ==> Running(d, pkts, id, p, c, order, used + 1, taken', lost')
    ensures r.Some? ==>
              && r.value == d.totalLen + IP_HDR_SIZE
              && Progress([], d.pktBuff[..], d.totalLen, p, c, Got(order, used + 1), taken', lost')
              && d.pktBuff[..IP_HDR_SIZE] == Splice(pkts[0][..IP_HDR_SIZE], 2, BeBytes(d.totalLen))
              && (lost' <==> !SafeUpTo(order, used + 1))
  {
    r, taken', lost' := Arrive(d, pkts[used], p, c, order[used], Got(order, used), taken, lost);
    GotNext(order, used);
    SafeNext(order, used);
  }

  /**
   Feeds the arrivals one by one until the source returns a packet. The datagram comes back at the
   arrival that completes it if and only if the order is safe; a safe order returns nothing before.
   The "only if" is for payloads whose first two bytes differ from every descriptor a lost hole can
   leave there: none of the places where the datagram is cut.
   */
  method Reassemble(d: Defragmenter, pkts: seq<seq<byte>>,
                    ghost id: seq<byte>, ghost p: seq<byte>, ghost c: seq<nat>, ghost order: seq<nat>)
    returns (r: Option<nat>, used: nat)
    requires d.pktBuff.Length == IP_PKTSIZE
    requires IsArrival(pkts, id, p, c, order) && d.Restarts(id)
    modifies d, d.pktBuff
    ensures used <= |pkts| && (r.None? ==> used == |pkts| && d.Valid() && !d.Restarts(id))
    ensures d.pktBuff[4..6] == id
    ensures SafeOrder(order) ==> Right(r, used, d.pktBuff[..], pkts, p, c, order)
    ensures Complete(c, Got(order, |order|)) && IsTelltale(p, c) ==>
              (used == |pkts| && Delivered(r, d.pktBuff[..], p) <==> SafeOrder(order))
  {
    hide Progress, Listed, Got, SafeUpTo, Describes;
    r := None;
    used := 0;
    ghost var taken: set<nat>, lost := {}, false;
    StartsRunning(d, pkts, id, p, c, order);
    while used < |pkts|
      invariant used <= |pkts| && r.None?
      invariant Running(d, pkts, id, p, c, order, used, taken, lost)
    {
      PacketIsFragment(pkts[used], id, p, c, order[used]);
      PacketIsFragment(pkts[0], id, p, c, order[0]);
      r, taken, lost := ArriveNext(d, pkts, id, p, c, order, used, taken, lost);
      used := used + 1;
      if r.Some? {
        ReturnedOutcome(d.pktBuff[..], d.totalLen, pkts, id, p, c, order, used, taken, lost);
        return;
      }
    }
    RunningIsIncomplete(d, pkts, id, p, c, order, taken, lost);
  }

  lemma StartsRunning(d: Defragmenter, pkts: seq<seq<byte>>, id: seq<byte>, p: seq<byte>, c: seq<nat>, order: seq<nat>)
    requires d.pktBuff.Length == IP_PKTSIZE && IsArrival(pkts, id, p, c, order) && d.Restarts(id)
    ensures IsFragmentOf(pkts[0], p, c, order[0]) && Running(d, pkts, id, p, c, order, 0, {}, false)
  {
    FreshDescribesNothing(c);
    PacketIsFragment(pkts[0], id, p, c, order[0]);
  }

  /** A run that has returned nothing waits for something, unless a hole has been lost. */
  lemma RunningIsIncomplete(d: Defragmenter, pkts: seq<seq<byte>>, id: seq<byte>, p: seq<byte>, c: seq<nat>,
                            order: seq<nat>, taken: set<nat>, lost: bool)
    requires d.pktBuff.Length == IP_PKTSIZE && IsArrival(pkts, id, p, c, order)
    requires Running(d, pkts, id, p, c, order, |pkts|, taken, lost)
    ensures d.Valid() && !d.Restarts(id)
    ensures SafeOrder(order) ==> !Complete(c, Got(order, |order|))
  {
    EmptyIffComplete(d.holes, c, taken);
  }

  lemma SafeNext(order: seq<nat>, n: nat)
    requires n < |order|
    ensures SafeUpTo(order, n + 1) <==> SafeUpTo(order, n) && SafeArrival(order, n)
  {
  }

  /** Orders that begin with the offset-0 fragment are safe, whatever follows. */
  lemma FirstFragmentFirstIsSafe(order: seq<nat>)
    requires order != [] && order[0] == 0
    ensures SafeOrder(order)
  {
    forall i: nat | i < |order|
      ensures SafeArrival(order, i)
    {
      if i > 0 {
        assert order[..i][0] == 0;
      }
    }
  }

  /** Strictly descending orders are safe too. */
  lemma DescendingIsSafe(order: seq<nat>)
    requires forall i, j {:trigger order[i], order[j]} :: 0 <= i < j < |order| ==> order[i] > order[j]
    ensures SafeOrder(order)
  {
    forall i: nat | i < |order|
      ensures SafeArrival(order, i)
    {
      var got, k := Got(order, i), order[i];
      forall t: nat
        ensures !RunFrom(got, t, k)
      {
        forall j | 0 <= j < i
          ensures order[..i][j] > k
        {
          assert order[j] > order[i];
        }
        assert t < k ==> t !in got;
      }
    }
  }

  lemma MiddleThenLast()
    ensures StepFragment(StepFragment(FRESH, [0, 8, 16, 24], 1).0, [0, 8, 16, 24], 2) == ([], Finished)
  {
    var c: seq<nat> := [0, 8, 16, 24];
    var hs := StepFragment(FRESH, c, 1).0;
    assert hs == [Hole(0, 8), Hole(2, UNKNOWN_END)];
    assert Kept(hs, 1) + Rest(hs[1], 24, 16, 8) + hs[2..] == [];
  }

  lemma LastAfterMiddleIsUnsafe()
    ensures !SafeOrder([1, 2, 0])
  {
    var order: seq<nat> := [1, 2, 0];
    assert order[..1] == [1] && Got(order, 1) == {1};
    assert RunFrom({1}, 1, 2);
    assert !SafeArrival(order, 1);
  }

  /**
   Not every order is safe: of three fragments of 8 bytes, the middle and the last one make the list
   look complete while the first is missing.
   */
  lemma MiddleLastFirstIsUnsafe()
    ensures var c: seq<nat>, order: seq<nat> := [0, 8, 16, 24], [1, 2, 0];
            && IsCuts(c) && !SafeOrder(order) && !Complete(c, Got(order, 2))
            && StepFragment(StepFragment(FRESH, c, order[0]).0, c, order[1]).1 == Finished
  {
    hide StepFragment, SafeOrder;
    MiddleThenLast();
    LastAfterMiddleIsUnsafe();
    var order: seq<nat>, zero: nat := [1, 2, 0], 0;
    assert order[..2] == [1, 2] && zero !in Got(order, 2);
    assert zero < Count([0, 8, 16, 24]);
  }

  /** The `n`th datagram of a stream comes back whole, or nothing does if it never became complete. */
  ghost predicate Returned(out: Option<seq<byte>>, pkts: seq<seq<byte>>, id: seq<byte>,
                           p: seq<byte>, c: seq<nat>, order: seq<nat>)
  {
    && IsArrival(pkts, id, p, c, order)
    && out == if Complete(c, Got(order, |order|)) then Some(FirstHeader(pkts[0], |p|) + p) else None
  }

  lemma RightIsReturned(r: Option<nat>, used: nat, b: seq<byte>, pkts: seq<seq<byte>>, id: seq<byte>,
                        p: seq<byte>, c: seq<nat>, order: seq<nat>)
    requires IsArrival(pkts, id, p, c, order) && |b| == IP_PKTSIZE && |pkts[0]| >= IP_HDR_SIZE
    requires Right(r, used, b, pkts, p, c, order)
    ensures Returned(if r.Some? && r.value <= |b| then Some(b[..r.value]) else None, pkts, id, p, c, order)
  {
    if r.Some? {
      assert b[..r.value] == b[..IP_HDR_SIZE] + b[IP_HDR_SIZE..IP_HDR_SIZE + |p|];
    }
  }

  lemma ArrivalHasHeader(pkts: seq<seq<byte>>, id: seq<byte>, p: seq<byte>, c: seq<nat>, order: seq<nat>)
    requires IsArrival(pkts, id, p, c, order)
    ensures pkts != [] && |pkts[0]| >= IP_HDR_SIZE && CutsOf(c, p)
  {
    assert IsPacketOf(pkts[0], id, p, c, order[0]);
  }

  /**
   A stream of datagrams through one defragmenter, each with an id other than the one before it, some
   of them never completed: every datagram that arrives in a safe order comes back.
   */
  method ReassembleStream(d: Defragmenter, stream: seq<seq<seq<byte>>>, ghost ids: seq<seq<byte>>,
                          ghost ps: seq<seq<byte>>, ghost cs: seq<seq<nat>>, ghost orders: seq<seq<nat>>)
    returns (outs: seq<Option<seq<byte>>>)
    requires d.pktBuff.Length == IP_PKTSIZE
    requires |stream| == |ids| == |ps| == |cs| == |orders|
    requires forall i {:trigger stream[i]} :: 0 <= i < |stream| ==> IsArrival(stream[i], ids[i], ps[i], cs[i], orders[i])
    requires stream != [] ==> d.Restarts(ids[0])
    requires forall i {:trigger ids[i]} :: 0 < i < |stream| ==> ids[i - 1] != ids[i]
    modifies d, d.pktBuff
    ensures |outs| == |stream|
    ensures forall i {:trigger outs[i]} :: 0 <= i < |stream| && SafeOrder(orders[i]) ==>
              Returned(outs[i], stream[i], ids[i], ps[i], cs[i], orders[i])
  {
    hide IsArrival, Right, Returned, SafeOrder, Listed, Complete, IsCuts, FirstHeader, CutsOf;
    outs := [];
    var n := 0;
    while n < |stream|
      invariant n <= |stream| && |outs| == n
      invariant n < |stream| ==> d.Restarts(ids[n])
      invariant forall i {:trigger outs[i]} :: 0 <= i < n && SafeOrder(orders[i]) ==>
                  Returned(outs[i], stream[i], ids[i], ps[i], cs[i], orders[i])
    {
      ArrivalHasHeader(stream[n], ids[n], ps[n], cs[n], orders[n]);
      var r, used := Reassemble(d, stream[n], ids[n], ps[n], cs[n], orders[n]);
      if SafeOrder(orders[n]) {
        RightIsReturned(r, used, d.pktBuff[..], stream[n], ids[n], ps[n], cs[n], orders[n]);
      }
      outs := outs + [if r.Some? && r.value <= d.pktBuff.Length then Some(d.pktBuff[..r.value]) else None];
      n := n + 1;
    }
  }
}
