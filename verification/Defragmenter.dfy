/** In-place IPv4 reassembly: `__net_defragment` of net/net.c. */
module Defragmentation {
  import opened Bytes
  import opened HoleList
  import opened HoleMemory
  import opened Options
  import Decimal

  const IP_OFFS := 0x1fff
  const IP_FLAGS_MFRAG := 0x2000

  // Fields of a received fragment, which begins with its 20-byte IP header.

  function PayloadLen(ip: seq<byte>): int
    requires |ip| >= IP_HDR_SIZE
  {
    Be16(ip, 2) as int - IP_HDR_SIZE
  }

  function PayloadStart(ip: seq<byte>): nat
    requires |ip| >= IP_HDR_SIZE
  {
    8 * (Be16(ip, 6) as int % (IP_OFFS + 1))
  }

  predicate MoreFragments(ip: seq<byte>)
    requires |ip| >= IP_HDR_SIZE
  {
    Be16(ip, 6) as int / IP_FLAGS_MFRAG % 2 == 1
  }

  function IpId(ip: seq<byte>): seq<byte>
    requires |ip| >= IP_HDR_SIZE
  {
    ip[4..6]
  }

  /** The word at octet 6: three flags, and thirteen bits of offset. */
  lemma FlagsAndOffset(hi: byte, lo: byte)
    ensures var w := 0x100 * (hi as int) + lo as int; w % 0x2000 == hi % 32 * 256 + lo && w / 0x2000 == hi / 32
  {
    Decimal.Unique(0x100 * (hi as int) + lo as int, 0x2000, hi / 32, hi % 32 * 256 + lo);
  }

  /** The fields of section 3.1 of RFC 791, octet by octet, in any header. */
  lemma {:induction false} HeaderOctets(ip: seq<byte>)
    requires |ip| >= 20
    ensures PayloadStart(ip) == 8 * (ip[6] as int % 32 * 256 + ip[7] as int)
    ensures PayloadLen(ip) == ip[2] as int * 256 + ip[3] as int - 20
    ensures MoreFragments(ip) <==> ip[6] / 32 % 2 == 1
    ensures IpId(ip) == [ip[4], ip[5]]
  {
    FlagsAndOffset(ip[6], ip[7]);
  }

  /** The memory `b` differs from `b0` in the `last_byte` at block `k`, and nowhere else in the fields. */
  ghost predicate SameFieldsBut(b0: seq<byte>, b: seq<byte>, k: nat)
    requires |b0| == |b| == IP_PKTSIZE
  {
    forall n: nat, g: nat {:trigger Field(b, n, g)} ::
      n <= MAX_BLOCK && g < 4 && (n != k || g != LAST) ==> Field(b, n, g) == Field(b0, n, g)
  }

  /** The list a packet meets: a new one if it starts a datagram. */
  function ListFor(restarts: bool, hs: seq<Hole>): seq<Hole> {
    if restarts then FRESH else hs
  }

  function StepPacket(hs: seq<Hole>, ip: seq<byte>): (seq<Hole>, Verdict)
    requires |ip| >= IP_HDR_SIZE && PayloadLen(ip) > 0
  {
    Step(hs, PayloadStart(ip), PayloadLen(ip), MoreFragments(ip))
  }

  predicate PacketLoses(hs: seq<Hole>, ip: seq<byte>)
    requires |ip| >= IP_HDR_SIZE && PayloadLen(ip) > 0
  {
    Loses(hs, PayloadStart(ip), PayloadLen(ip), MoreFragments(ip))
  }

  predicate Holds(ip: seq<byte>, q: int)
    requires |ip| >= IP_HDR_SIZE
  {
    PayloadStart(ip) <= q < PayloadStart(ip) + PayloadLen(ip)
  }

  /** A fragment with its whole payload present, aligned as RFC 791 asks, that fits the holes. */
  ghost predicate IsFragment(ip: seq<byte>, hs: seq<Hole>) {
    && |ip| >= IP_HDR_SIZE
    && PayloadLen(ip) > 0 && |ip| >= IP_HDR_SIZE + PayloadLen(ip)
    && (PayloadStart(ip) + PayloadLen(ip) <= MAX_PAYLOAD ==>
      && Fits(hs, PayloadStart(ip), PayloadLen(ip), MoreFragments(ip))
      && (MoreFragments(ip) ==> PayloadStart(ip) + PayloadLen(ip) + 8 <= MAX_PAYLOAD))
  }

  lemma NothingReached(hs: seq<Hole>, start: nat, len: nat, more: bool)
    requires var i := Find(hs, start); i < |hs| ==> start / 8 + (len + 7) / 8 <= hs[i].block
    ensures Step(hs, start, len, more) == (hs, Dropped) && !Loses(hs, start, len, more)
  {
  }

  /** The fragment's bytes are in `b`; elsewhere outside the holes `b` is `b0`. */
  ghost predicate Absorbs(b0: seq<byte>, b: seq<byte>, hs: seq<Hole>, ip: seq<byte>)
    requires |b0| == |b| == IP_PKTSIZE && IsFragment(ip, hs)
  {
    b[..IP_HDR_SIZE] == b0[..IP_HDR_SIZE] && PayloadAfter(b0, b, hs, Stored, ip)
  }

  ghost predicate PayloadAfter(b0: seq<byte>, b: seq<byte>, hs: seq<Hole>, verdict: Verdict, ip: seq<byte>)
    requires |b0| == |b| == IP_PKTSIZE && IsFragment(ip, hs)
  {
    && (forall q: nat {:trigger Holds(ip, q)} :: q < MAX_PAYLOAD && Holds(ip, q) && verdict != Dropped ==>
      b[IP_HDR_SIZE + q] == ip[IP_HDR_SIZE + q - PayloadStart(ip)])
    && (forall q: nat {:trigger Covers(hs, q)} ::
      q < MAX_PAYLOAD && !Covers(hs, q) && (verdict == Dropped || !Holds(ip, q)) ==>
      b[IP_HDR_SIZE + q] == b0[IP_HDR_SIZE + q])
  }

  lemma SplicedAbsorbs(b0: seq<byte>, b1: seq<byte>, hs: seq<Hole>, ip: seq<byte>, b: seq<byte>)
    requires |b0| == |b1| == IP_PKTSIZE && IsFragment(ip, hs)
    requires PayloadStart(ip) + PayloadLen(ip) <= MAX_PAYLOAD
    requires SameOutside(b0, b1, hs)
    requires b == Splice(b1, IP_HDR_SIZE + PayloadStart(ip), ip[IP_HDR_SIZE..IP_HDR_SIZE + PayloadLen(ip)])
    ensures Absorbs(b0, b, hs, ip)
    ensures PayloadStart(ip) > 0 ==> Field(b, 0, LAST) == Field(b1, 0, LAST)
  {
    assert b[..IP_HDR_SIZE] == b1[..IP_HDR_SIZE];
  }

  /** A new list covers everything, so what memory held before does not matter. */
  lemma FreshForgets(b0: seq<byte>, b1: seq<byte>, b: seq<byte>, verdict: Verdict, ip: seq<byte>, hs: seq<Hole>)
    requires |b0| == |b1| == |b| == IP_PKTSIZE && IsFragment(ip, hs)
    ensures IsFragment(ip, FRESH)
    ensures PayloadAfter(b1, b, FRESH, verdict, ip) <==> PayloadAfter(b0, b, FRESH, verdict, ip)
  {
    FreshCovers();
  }

  lemma FreshCovers()
    ensures forall q: nat {:trigger Covers(FRESH, q)} :: q < MAX_PAYLOAD ==> Covers(FRESH, q)
  {
    assert FRESH[0] in FRESH;
    forall q: nat | q < MAX_PAYLOAD
      ensures Covers(FRESH, q)
    {
      assert 8 * FRESH[0].block <= q < FRESH[0].last;
    }
  }

  /** The header's length field is no payload. */
  lemma LengthIsSet(b0: seq<byte>, b: seq<byte>, hs: seq<Hole>, ip: seq<byte>, v: u16)
    requires |b0| == |b| == IP_PKTSIZE && IsFragment(ip, hs) && Absorbs(b0, b, hs, ip)
    ensures var b' := Splice(b, 2, BeBytes(v));
         && b'[..IP_HDR_SIZE] == Splice(b0[..IP_HDR_SIZE], 2, BeBytes(v))
         && PayloadAfter(b0, b', hs, Finished, ip) && Field(b', 0, LAST) == Field(b, 0, LAST)
  {
  }

  lemma NothingChanges(b: seq<byte>, hs: seq<Hole>, ip: seq<byte>)
    requires |b| == IP_PKTSIZE && IsFragment(ip, hs)
    ensures PayloadAfter(b, b, hs, Dropped, ip)
  {
  }

  function TotalAfter(total: u16, verdict: Verdict, ip: seq<byte>): nat
    requires |ip| >= IP_HDR_SIZE && PayloadLen(ip) > 0
  {
    if verdict != Dropped && !MoreFragments(ip) then PayloadStart(ip) + PayloadLen(ip) else total
  }

  /** The header in the buffer: its length field is set when the packet is complete. */
  function HeaderAfter(header: seq<byte>, r: Option<nat>, totalLen: nat): seq<byte>
    requires |header| == IP_HDR_SIZE && totalLen < 0x1_0000
  {
    if r.Some? then Splice(header, 2, BeBytes(totalLen)) else header
  }

  lemma FreshIsListed(b0: seq<byte>, header: seq<byte>)
    requires |b0| == IP_PKTSIZE && |header| == IP_HDR_SIZE
    ensures var b1 := Splice(b0, At(0, LAST), LeBytes(UNKNOWN_END));
         var b2 := Splice(b1, At(0, NEXT), LeBytes(0));
         var b3 := Splice(b2, At(0, PREV), LeBytes(0));
         var b := Splice(b3, 0, header);
         Listed(b, 0, FRESH) && b[..IP_HDR_SIZE] == header
  {
    var b1 := Splice(b0, At(0, LAST), LeBytes(UNKNOWN_END));
    var b2 := Splice(b1, At(0, NEXT), LeBytes(0));
    var b3 := Splice(b2, At(0, PREV), LeBytes(0));
    var b := Splice(b3, 0, header);
    assert Field(b, 0, LAST) == UNKNOWN_END && Field(b, 0, NEXT) == 0 && Field(b, 0, PREV) == 0;
    assert Linked(b, FRESH, 0);
  }

  class Defragmenter {
    /** The header of the first fragment, then either data or hole descriptors. */
    const pktBuff: array<byte>
    var firstHole: nat
    var totalLen: u16

    /** The hole list that the descriptors in `pktBuff` stand for; empty when there is none. */
    ghost var holes: seq<Hole>

    constructor ()
      ensures fresh(pktBuff) && pktBuff.Length == IP_PKTSIZE
      ensures totalLen == 0 && forall id: seq<byte> {:trigger Restarts(id)} :: Restarts(id)
    {
      pktBuff := new byte[IP_PKTSIZE](_ => 0);
      firstHole, totalLen := 0, 0;
      holes := [];
    }

    ghost predicate Valid()
      reads this, pktBuff
    {
      Listed(pktBuff[..], firstHole, holes)
    }

    /** A packet with this id starts a new datagram. */
    predicate Restarts(id: seq<byte>)
      requires pktBuff.Length == IP_PKTSIZE
      reads this, pktBuff
    {
      totalLen == 0 || pktBuff[4..6] != id
    }

    /** Writes one field of a descriptor that lies inside hole `g` of `hs`. */
    method PutField(k: nat, f: nat, v: u16, ghost b0: seq<byte>, ghost hs: seq<Hole>, ghost g: Hole)
      requires pktBuff.Length == |b0| == IP_PKTSIZE && k <= MAX_BLOCK && f < 4
      requires g in hs && g.block <= k && 8 * k + 8 <= g.last && SameOutside(b0, pktBuff[..], hs)
      modifies pktBuff
      ensures forall n: nat, e: nat {:trigger Field(pktBuff[..], n, e)} :: n <= MAX_BLOCK && e < 4 ==>
                Field(pktBuff[..], n, e) == if n == k && e == f then v else Field(old(pktBuff[..]), n, e)
      ensures SameOutside(b0, pktBuff[..], hs)
    {
      pktBuff[At(k, f)] := v % 0x100;
      pktBuff[At(k, f) + 1] := v / 0x100;
      assert pktBuff[..] == Splice(old(pktBuff[..]), At(k, f), LeBytes(v));
      HoleMemory.PutField(old(pktBuff[..]), k, f, v, pktBuff[..]);
      PutInside(old(pktBuff[..]), k, f, v, b0, hs, g);
    }

    method GetField(k: nat, f: nat) returns (v: u16)
      requires pktBuff.Length == IP_PKTSIZE && k <= MAX_BLOCK && f < 4
      ensures v == Field(pktBuff[..], k, f)
    {
      v := pktBuff[At(k, f)] as int + 0x100 * pktBuff[At(k, f) + 1] as int;
    }

    /** The whole hole is filled: take it off the list. */
    method RemoveHole(h: nat, ghost b0: seq<byte>, ghost i: nat) returns (done: bool)
      requires Listed(b0, firstHole, holes) && i < |holes| && h == holes[i].block
      requires pktBuff.Length == IP_PKTSIZE
      requires SameOutside(b0, pktBuff[..], holes) && SameFieldsBut(b0, pktBuff[..], h)
      modifies this`firstHole, this`holes, pktBuff
      ensures holes == Kept(old(holes), i) + old(holes)[i + 1..]
      ensures done <==> holes == []
      ensures !done ==> Valid()
      ensures SameOutside(b0, pktBuff[..], old(holes))
      ensures i > 0 && NoPrev(old(holes), i) ==> Field(pktBuff[..], 0, LAST) == Field(b0, 0, LAST)
    {
      ghost var hs := holes;
      assert Linked(b0, hs, i);
      Others(hs, i);
      var prev := GetField(h, PREV);
      var next := GetField(h, NEXT);
      done := prev == 0 && next == 0;
      if done {
      } else if prev == 0 {
        firstHole := next;
        PutField(next, PREV, 0, b0, hs, hs[i + 1]);
      } else if next == 0 {
        PutField(prev, NEXT, 0, b0, hs, hs[i - 1]);
      } else {
        PutField(next, PREV, prev, b0, hs, hs[i + 1]);
        PutField(prev, NEXT, next, b0, hs, hs[i - 1]);
      }
      holes := Kept(hs, i) + hs[i + 1..];
      if !done {
        RemovalKeepsList(b0, old(firstHole), hs, i, pktBuff[..]);
      }
    }

    /** The structure copy `*newh = *h`. */
    method CopyHole(h: nat, newh: nat, ghost b0: seq<byte>, ghost g: Hole)
      requires pktBuff.Length == |b0| == IP_PKTSIZE && h <= MAX_BLOCK && newh <= MAX_BLOCK && h != newh
      requires g in holes && g.block <= newh && 8 * newh + 8 <= g.last && SameOutside(b0, pktBuff[..], holes)
      modifies pktBuff
      ensures forall n: nat, e: nat {:trigger Field(pktBuff[..], n, e)} :: n <= MAX_BLOCK && e < 4 ==>
                Field(pktBuff[..], n, e) == Field(old(pktBuff[..]), if n == newh then h else n, e)
      ensures SameOutside(b0, pktBuff[..], holes)
    {
      var f := 0;
      while f < 4
        invariant f <= 4
        invariant forall n: nat, e: nat {:trigger Field(pktBuff[..], n, e)} :: n <= MAX_BLOCK && e < 4 ==>
                    Field(pktBuff[..], n, e) == Field(old(pktBuff[..]), if n == newh && e < f then h else n, e)
        invariant SameOutside(b0, pktBuff[..], holes)
      {
        var v := GetField(h, f);
        PutField(newh, f, v, b0, holes, g);
        f := f + 1;
      }
    }

    /** The beginning of the hole is filled: move its descriptor to block `newh`. */
    method MoveHole(h: nat, newh: nat, ghost i: nat)
      requires Valid() && i < |holes| && pktBuff.Length == IP_PKTSIZE && h == holes[i].block
      requires h < newh <= MAX_BLOCK && 8 * newh + 8 <= holes[i].last
      modifies this`firstHole, this`holes, pktBuff
      ensures holes == Kept(old(holes), i) + [Hole(newh, old(holes)[i].last)] + old(holes)[i + 1..]
      ensures Valid()
      ensures SameOutside(old(pktBuff[..]), pktBuff[..], old(holes))
      ensures i > 0 && NoPrev(old(holes), i) ==> Field(pktBuff[..], 0, LAST) == Field(old(pktBuff[..]), 0, LAST)
    {
      ghost var hs, b0 := holes, pktBuff[..];
      assert Linked(b0, hs, i);
      Others(hs, i);
      OthersInside(hs, i, newh);
      CopyHole(h, newh, b0, hs[i]);
      var next := GetField(newh, NEXT);
      if next != 0 {
        PutField(next, PREV, newh, b0, hs, hs[i + 1]);
      }
      var prev := GetField(newh, PREV);
      if prev != 0 {
        PutField(prev, NEXT, newh, b0, hs, hs[i - 1]);
      } else {
        firstHole := newh;
      }
      holes := Kept(hs, i) + [Hole(newh, hs[i].last)] + hs[i + 1..];
      assert i + 1 < |hs| ==> Before(hs[i], hs[i + 1]);
      assert Moved(b0, hs, i, newh, pktBuff[..]);
      MovingKeepsList(b0, old(firstHole), hs, i, newh, pktBuff[..]);
    }

    /** The fragment lies in the middle of the hole: a second hole begins at block `newh`. */
    method SplitHole(h: nat, newh: nat, start: u16, ghost i: nat)
      requires Valid() && i < |holes| && pktBuff.Length == IP_PKTSIZE && h == holes[i].block
      requires h < newh <= MAX_BLOCK && 8 * newh + 8 <= holes[i].last
      requires 8 * h + 8 <= start < 8 * newh && start % 8 == 0
      modifies this`holes, pktBuff
      ensures holes == old(holes)[..i] + [Hole(h, start), Hole(newh, old(holes)[i].last)] + old(holes)[i + 1..]
      ensures Valid()
      ensures SameOutside(old(pktBuff[..]), pktBuff[..], old(holes))
    {
      ghost var hs, b0 := holes, pktBuff[..];
      assert Linked(b0, hs, i);
      Others(hs, i);
      OthersInside(hs, i, newh);
      CopyHole(h, newh, b0, hs[i]);
      PutField(h, LAST, start, b0, hs, hs[i]);
      PutField(h, NEXT, newh, b0, hs, hs[i]);
      PutField(newh, PREV, h, b0, hs, hs[i]);
      var next := GetField(newh, NEXT);
      if next != 0 {
        PutField(next, PREV, newh, b0, hs, hs[i + 1]);
      }
      holes := hs[..i] + [Hole(h, start), Hole(newh, hs[i].last)] + hs[i + 1..];
      assert i + 1 < |hs| ==> Before(hs[i], hs[i + 1]);
      assert Splits(b0, hs, i, start, newh, pktBuff[..]);
      SplittingKeepsList(b0, firstHole, hs, i, start, newh, pktBuff[..]);
    }

    /** The four ways a fragment overlaps with hole `h`, which may have been truncated in `pktBuff` already. */
    method FixHoles(h: nat, start: nat, len: nat, ghost more: bool, ghost b0: seq<byte>, ghost i: nat)
      returns (done: bool)
      requires Listed(b0, firstHole, holes) && pktBuff.Length == IP_PKTSIZE
      requires Fits(holes, start, len, more) && (more ==> start + len + 8 <= MAX_PAYLOAD)
      requires i == Find(holes, start) && i < |holes| && h == holes[i].block < start / 8 + (len + 7) / 8
      requires SameOutside(b0, pktBuff[..], holes)
      requires Shortened(b0, holes, i, if more then holes[i].last else start + len, pktBuff[..])
      requires more ==> pktBuff[..] == b0
      modifies this`firstHole, this`holes, pktBuff
      ensures Step(old(holes), start, len, more) == (holes, if done then Finished else Stored)
      ensures !done ==> Valid()
      ensures SameOutside(b0, pktBuff[..], old(holes))
      ensures Loses(old(holes), start, len, more) ==> Field(pktBuff[..], 0, LAST) == Field(b0, 0, LAST)
    {
      hide Field, Linked, Rest, Wf;
      ghost var hs := holes;
      StepWf(hs, start, len, more);
      StepCases(hs, start, len, more);
      StepRoom(hs, start, len, more);
      var last := GetField(h, LAST);
      var thisfrag := start / 8;
      done := false;
      if h >= thisfrag && last <= start + len {
        done := RemoveHole(h, b0, i);
      } else if last <= start + len {
        PutField(h, LAST, start, b0, hs, hs[i]);
        holes := hs[i := Hole(h, start)];
        ShorteningKeepsList(b0, firstHole, hs, i, start, pktBuff[..]);
      } else if h >= thisfrag {
        MoveHole(h, thisfrag + len / 8, i);
      } else {
        SplitHole(h, thisfrag + len / 8, start, i);
      }
    }

    /** `memcpy` into the buffer. */
    method Store(at: nat, data: seq<byte>)
      requires at + |data| <= pktBuff.Length
      modifies pktBuff
      ensures pktBuff[..] == Splice(old(pktBuff[..]), at, data)
    {
      var n := 0;
      while n < |data|
        invariant n <= |data|
        invariant pktBuff[..] == Splice(old(pktBuff[..]), at, data[..n])
      {
        pktBuff[at + n] := data[n];
        n := n + 1;
      }
      assert data[..n] == data;
    }

    /** A new datagram: one hole without end, and the header of its first fragment. */
    method Reset(ip: seq<byte>)
      requires |ip| >= IP_HDR_SIZE && pktBuff.Length == IP_PKTSIZE
      modifies this, pktBuff
      ensures Valid() && holes == FRESH && totalLen == UNKNOWN_END
      ensures pktBuff[..IP_HDR_SIZE] == ip[..IP_HDR_SIZE]
    {
      hide Splice;
      ghost var b0 := pktBuff[..];
      totalLen := UNKNOWN_END;
      Store(At(0, LAST), LeBytes(UNKNOWN_END));
      Store(At(0, NEXT), LeBytes(0));
      Store(At(0, PREV), LeBytes(0));
      firstHole := 0;
      Store(0, ip[..IP_HDR_SIZE]);
      holes := FRESH;
      FreshIsListed(b0, ip[..IP_HDR_SIZE]);
    }

    /** Walks the list to the first hole that reaches byte `start`. */
    method FindHole(start: nat) returns (h: Option<nat>, ghost i: nat)
      requires Valid() && pktBuff.Length == IP_PKTSIZE
      ensures i == Find(holes, start)
      ensures h == if Find(holes, start) < |holes| then Some(holes[Find(holes, start)].block) else None
    {
      var k := firstHole;
      i := 0;
      assert Linked(pktBuff[..], holes, 0);
      var last := GetField(k, LAST);
      while last < start
        invariant i < |holes| && k == holes[i].block && last == holes[i].last
        invariant forall j {:trigger holes[j]} :: 0 <= j < i ==> holes[j].last < start
        decreases |holes| - i
      {
        assert Linked(pktBuff[..], holes, i);
        assert i + 1 < |holes| ==> Before(holes[i], holes[i + 1]);
        var next := GetField(k, NEXT);
        i := i + 1;
        if next == 0 {
          return None, i;
        }
        k := next;
        assert Linked(pktBuff[..], holes, i);
        last := GetField(k, LAST);
      }
      h := Some(k);
    }

    /** Truncates hole `h` at the end of a last fragment, then takes the fragment out of the hole. */
    method FillHole(h: nat, start: nat, len: nat, more: bool, ghost i: nat) returns (done: bool)
      requires Valid() && pktBuff.Length == IP_PKTSIZE
      requires Fits(holes, start, len, more) && (more ==> start + len + 8 <= MAX_PAYLOAD)
      requires i == Find(holes, start) && i < |holes| && h == holes[i].block < start / 8 + (len + 7) / 8
      modifies this`firstHole, this`holes, pktBuff
      ensures Step(old(holes), start, len, more) == (holes, if done then Finished else Stored)
      ensures !done ==> Valid()
      ensures SameOutside(old(pktBuff[..]), pktBuff[..], old(holes))
      ensures Loses(old(holes), start, len, more) ==> Field(pktBuff[..], 0, LAST) == old(holes)[0].last
    {
      ghost var hs, b0 := holes, pktBuff[..];
      assert hs[i] in hs && Linked(b0, hs, i) && Linked(b0, hs, 0);
      if !more {
        PutField(h, LAST, start + len, b0, hs, hs[i]);
      }
      done := FixHoles(h, start, len, more, b0, i);
    }

    /** Stores a fragment that reaches hole `h`. */
    method Merge(ip: seq<byte>, h: nat, ghost i: nat) returns (done: bool)
      requires Valid() && pktBuff.Length == IP_PKTSIZE
      requires IsFragment(ip, holes) && PayloadStart(ip) + PayloadLen(ip) <= MAX_PAYLOAD
      requires i == Find(holes, PayloadStart(ip)) && i < |holes|
      requires h == holes[i].block < PayloadStart(ip) / 8 + (PayloadLen(ip) + 7) / 8
      modifies this, pktBuff
      ensures StepPacket(old(holes), ip) == (holes, if done then Finished else Stored)
      ensures !done ==> Valid()
      ensures totalLen == if MoreFragments(ip) then old(totalLen) else PayloadStart(ip) + PayloadLen(ip)
      ensures Absorbs(old(pktBuff[..]), pktBuff[..], old(holes), ip)
      ensures PacketLoses(old(holes), ip) ==> Field(pktBuff[..], 0, LAST) == old(holes)[0].last
    {
      hide Step, Field, Linked, Kept, Rest, At;
      ghost var hs, b0 := holes, pktBuff[..];
      var start, len, more := PayloadStart(ip), PayloadLen(ip), MoreFragments(ip);
      if !more {
        totalLen := start + len;
      }
      done := FillHole(h, start, len, more, i);
      ghost var b1 := pktBuff[..];
      var data := ip[IP_HDR_SIZE..IP_HDR_SIZE + len];
      Store(IP_HDR_SIZE + start, data);
      if !done {
        StepAvoids(hs, start, len, more);
        StoreKeepsList(b1, firstHole, holes, start, data);
      }
      SplicedAbsorbs(b0, b1, hs, ip, pktBuff[..]);
    }

    /** A fragment for the datagram in the buffer. */
    method Take(ip: seq<byte>) returns (r: Option<nat>)
      requires Valid() && pktBuff.Length == IP_PKTSIZE
      requires IsFragment(ip, holes) && PayloadStart(ip) + PayloadLen(ip) <= MAX_PAYLOAD
      modifies this, pktBuff
      ensures var (now, verdict) := StepPacket(old(holes), ip);
              && holes == now && (r.Some? <==> verdict == Finished)
              && totalLen == TotalAfter(old(totalLen), verdict, ip)
              && PayloadAfter(old(pktBuff[..]), pktBuff[..], old(holes), verdict, ip)
      ensures r.None? ==> Valid()
      ensures r.Some? ==> r.value == totalLen + IP_HDR_SIZE
      ensures pktBuff[..IP_HDR_SIZE] == HeaderAfter(old(pktBuff[..IP_HDR_SIZE]), r, totalLen)
      ensures PacketLoses(old(holes), ip) ==> Field(pktBuff[..], 0, LAST) == old(holes)[0].last
    {
      hide Step, Loses, Field, PayloadAfter, Listed;
      r := None;
      ghost var hs, b0 := holes, pktBuff[..];
      var h, i := FindHole(PayloadStart(ip));
      if h == None || PayloadStart(ip) / 8 + (PayloadLen(ip) + 7) / 8 <= h.value {
        NothingReached(hs, PayloadStart(ip), PayloadLen(ip), MoreFragments(ip));
        NothingChanges(b0, hs, ip);
        return;
      }
      var done := Merge(ip, h.value, i);
      if done {
        LengthIsSet(b0, pktBuff[..], hs, ip, totalLen);
        Store(2, BeBytes(totalLen));
        r := Some(totalLen + IP_HDR_SIZE);
      }
    }

    /**
     One received fragment. `None` is the source's NULL; `Some(n)` is the complete packet, `n` bytes
     long, in `pktBuff`.
     */
    method Defragment(ip: seq<byte>) returns (r: Option<nat>)
      requires pktBuff.Length == IP_PKTSIZE
      requires |ip| >= IP_HDR_SIZE && IsFragment(ip, ListFor(Restarts(IpId(ip)), holes))
      requires !Restarts(IpId(ip)) ==> Valid()
      modifies this, pktBuff
      ensures 8 * (ip[6] as int % 32 * 256 + ip[7] as int) + ip[2] as int * 256 + ip[3] as int - 20 > 16364 ==>
                r == None && unchanged(this) && unchanged(pktBuff)
      ensures PayloadStart(ip) + PayloadLen(ip) <= 16364 ==>
                var starts := old(Restarts(IpId(ip)));
                var was := ListFor(starts, old(holes));
                var (now, verdict) := StepPacket(was, ip);
                && holes == now && (r.Some? <==> verdict == Finished)
                && (r.None? ==> Valid())
                && totalLen == TotalAfter(if starts then UNKNOWN_END else old(totalLen), verdict, ip)
                && (r.Some? ==> r.value == totalLen + IP_HDR_SIZE)
                && pktBuff[..IP_HDR_SIZE] == HeaderAfter(if starts then ip[..IP_HDR_SIZE] else old(pktBuff[..IP_HDR_SIZE]),
                                                         r, totalLen)
                && PayloadAfter(old(pktBuff[..]), pktBuff[..], was, verdict, ip)
                && (PacketLoses(was, ip) ==> Field(pktBuff[..], 0, LAST) == was[0].last)
    {
      r := None;
      HeaderOctets(ip);
      if PayloadStart(ip) + PayloadLen(ip) > MAX_PAYLOAD {
        return;
      }
      hide StepPacket, PacketLoses, Field, PayloadAfter, Listed, TotalAfter;
      ghost var b := pktBuff[..];
      if Restarts(IpId(ip)) {
        Reset(ip);
      }
      ghost var hs, b0 := holes, pktBuff[..];
      r := Take(ip);
      FreshForgets(b, b0, pktBuff[..], StepPacket(hs, ip).1, ip, hs);
    }
  }
}
