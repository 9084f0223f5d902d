/**
 Hole descriptors in memory: each hole of the list is described by the first 8 bytes of the hole
 itself, inside the very buffer the datagram is assembled in.
 */
module HoleMemory {
  import opened Bytes
  import opened HoleList

  const IP_PKTSIZE := 16384
  const IP_HDR_SIZE := 20

  /** The last block whose descriptor still fits in the buffer. */
  const MAX_BLOCK := 2044

  const LAST := 0
  const NEXT := 1
  const PREV := 2

  /** Where the field `f` of the descriptor at block `k` is kept. */
  function At(k: nat, f: nat): (i: nat)
  {
    IP_HDR_SIZE + 8 * k + 2 * f
  }

  function Field(b: seq<byte>, k: nat, f: nat): (v: u16)
    requires |b| == IP_PKTSIZE && k <= MAX_BLOCK && f < 4
  {
    Le16(b, At(k, f))
  }

  function NextOf(hs: seq<Hole>, i: nat): nat {
    if i + 1 < |hs| then hs[i + 1].block else 0
  }

  function PrevOf(hs: seq<Hole>, i: nat): nat
    requires i < |hs|
  {
    if i > 0 then hs[i - 1].block else 0
  }

  ghost predicate Linked(b: seq<byte>, hs: seq<Hole>, i: nat)
    requires |b| == IP_PKTSIZE && i < |hs| && hs[i].block <= MAX_BLOCK
  {
    && Field(b, hs[i].block, LAST) == hs[i].last
    && Field(b, hs[i].block, NEXT) == NextOf(hs, i)
    && Field(b, hs[i].block, PREV) == PrevOf(hs, i)
  }

  /** The descriptors in `b`, from `first` on, are the list `hs`. */
  ghost predicate Listed(b: seq<byte>, first: nat, hs: seq<Hole>) {
    && |b| == IP_PKTSIZE && Wf(hs) && hs != [] && first == hs[0].block
    && (forall i {:trigger hs[i]} :: 0 <= i < |hs| ==> hs[i].block <= MAX_BLOCK)
    && (forall i {:trigger Linked(b, hs, i)} :: 0 <= i < |hs| ==> Linked(b, hs, i))
  }

  ghost predicate Covers(hs: seq<Hole>, q: int) {
    exists h :: h in hs && 8 * h.block <= q < h.last
  }

  /** `b` and `c` agree on the header and on all payload bytes outside the holes. */
  ghost predicate SameOutside(b: seq<byte>, c: seq<byte>, hs: seq<Hole>)
    requires |b| == |c| == IP_PKTSIZE
  {
    && b[..IP_HDR_SIZE] == c[..IP_HDR_SIZE]
    && (forall q: nat {:trigger Covers(hs, q)} ::
      q < MAX_PAYLOAD && !Covers(hs, q) ==> b[IP_HDR_SIZE + q] == c[IP_HDR_SIZE + q])
  }

  /** Writing one field leaves every other field alone. */
  lemma PutField(b: seq<byte>, k: nat, f: nat, v: u16, b': seq<byte>)
    requires |b| == IP_PKTSIZE && k <= MAX_BLOCK && f < 4
    requires b' == Splice(b, At(k, f), LeBytes(v))
    ensures forall n: nat, g: nat {:trigger Field(b', n, g)} :: n <= MAX_BLOCK && g < 4 ==>
              Field(b', n, g) == if n == k && g == f then v else Field(b, n, g)
  {
  }

  /** Writing into the descriptor block of a hole touches nothing outside the holes. */
  lemma PutInside(b: seq<byte>, k: nat, f: nat, v: u16, b0: seq<byte>, hs: seq<Hole>, h: Hole)
    requires |b| == |b0| == IP_PKTSIZE && k <= MAX_BLOCK && f < 4
    requires h in hs && h.block <= k && 8 * k + 8 <= h.last
    requires SameOutside(b0, b, hs)
    ensures SameOutside(b0, Splice(b, At(k, f), LeBytes(v)), hs)
  {
    var b' := Splice(b, At(k, f), LeBytes(v));
    assert b'[..IP_HDR_SIZE] == b[..IP_HDR_SIZE];
    forall q: nat | q < MAX_PAYLOAD && !Covers(hs, q)
      ensures b0[IP_HDR_SIZE + q] == b'[IP_HDR_SIZE + q]
    {
      assert !(8 * h.block <= q < h.last);
    }
  }

  /** Replacing hole `i` keeps the rest of the list linked when the seams are. */
  lemma Relinked(b: seq<byte>, first: nat, hs: seq<Hole>, i: nat,
                 b': seq<byte>, before: seq<Hole>, rest: seq<Hole>)
    requires Listed(b, first, hs) && i < |hs| && |b'| == IP_PKTSIZE
    requires before == [] || before == hs[..i]
    requires var hs' := before + rest + hs[i + 1..];
             && hs' != [] && Wf(hs')
             && (forall j {:trigger hs'[j]} :: 0 <= j < |hs'| ==> hs'[j].block <= MAX_BLOCK)
             && (forall j {:trigger Linked(b', hs', j)} ::
               |before| - 1 <= j <= |before| + |rest| && 0 <= j < |hs'| ==> Linked(b', hs', j))
    requires forall j, f: nat {:trigger Field(b', hs[j].block, f)} ::
               (0 <= j < i - 1 || i + 1 < j < |hs|) && f < 4 ==> Field(b', hs[j].block, f) == Field(b, hs[j].block, f)
    ensures var hs' := before + rest + hs[i + 1..]; Listed(b', hs'[0].block, hs')
  {
    var hs' := before + rest + hs[i + 1..];
    var p, q := |before|, |before| + |rest|;
    forall j | 0 <= j < |hs'| && !(p - 1 <= j <= q)
      ensures Linked(b', hs', j)
    {
      var n := if j < p then j else j - q + i + 1;
      assert hs'[j] == hs[n] && Linked(b, hs, n);
      assert Field(b', hs[n].block, LAST) == Field(b, hs[n].block, LAST);
      assert Field(b', hs[n].block, NEXT) == Field(b, hs[n].block, NEXT);
      assert Field(b', hs[n].block, PREV) == Field(b, hs[n].block, PREV);
      assert NextOf(hs', j) == NextOf(hs, n) && PrevOf(hs', j) == PrevOf(hs, n);
    }
  }

  /** Storing bytes away from every hole keeps the list. */
  lemma StoreKeepsList(b: seq<byte>, first: nat, hs: seq<Hole>, start: nat, data: seq<byte>)
    requires Listed(b, first, hs) && start % 8 == 0 && start + |data| <= MAX_PAYLOAD
    requires forall i {:trigger hs[i]} :: 0 <= i < |hs| ==> hs[i].last <= start || start + |data| <= 8 * hs[i].block
    ensures Listed(Splice(b, IP_HDR_SIZE + start, data), first, hs)
  {
    var b' := Splice(b, IP_HDR_SIZE + start, data);
    forall i | 0 <= i < |hs|
      ensures Linked(b', hs, i)
    {
      assert Linked(b, hs, i);
      forall f: nat | f < 3
        ensures Field(b', hs[i].block, f) == Field(b, hs[i].block, f)
      {
      }
    }
  }

  /** `b` is `b0` with the neighbours of hole `i` linked past it; the `last_byte` of hole `i` is free. */
  ghost predicate Unlinked(b0: seq<byte>, hs: seq<Hole>, i: nat, b: seq<byte>)
    requires |b0| == |b| == IP_PKTSIZE && i < |hs|
  {
    forall n: nat, g: nat {:trigger Field(b, n, g)} :: n <= MAX_BLOCK && g < 4 ==>
      if i + 1 < |hs| && n == hs[i + 1].block && g == PREV then Field(b, n, g) == PrevOf(hs, i)
      else if !NoPrev(hs, i) && n == hs[i - 1].block && g == NEXT then Field(b, n, g) == NextOf(hs, i)
      else (n == hs[i].block && g == LAST) || Field(b, n, g) == Field(b0, n, g)
  }

  lemma UnlinkedSeamBefore(b0: seq<byte>, first: nat, hs: seq<Hole>, i: nat, b: seq<byte>)
    requires Listed(b0, first, hs) && i < |hs| && |b| == IP_PKTSIZE && Unlinked(b0, hs, i, b) && Kept(hs, i) != []
    ensures Linked(b, Kept(hs, i) + hs[i + 1..], i - 1)
  {
    Others(hs, i);
    var hs' := Kept(hs, i) + hs[i + 1..];
    assert hs'[i - 1] == hs[i - 1] && Linked(b0, hs, i - 1);
    assert i + 1 < |hs| ==> Before(hs[i - 1], hs[i + 1]);
  }

  lemma UnlinkedSeamBehind(b0: seq<byte>, first: nat, hs: seq<Hole>, i: nat, b: seq<byte>)
    requires Listed(b0, first, hs) && i + 1 < |hs| && |b| == IP_PKTSIZE && Unlinked(b0, hs, i, b)
    ensures var hs' := Kept(hs, i) + hs[i + 1..]; var p := |Kept(hs, i)|;
         hs'[p] == hs[i + 1] && hs'[p].block <= MAX_BLOCK && Linked(b, hs', p)
  {
    Others(hs, i);
    assert (Kept(hs, i) + hs[i + 1..])[|Kept(hs, i)|] == hs[i + 1] && Linked(b0, hs, i + 1);
    assert i > 0 ==> Before(hs[i - 1], hs[i + 1]);
    assert i > 1 ==> Before(hs[0], hs[i - 1]);
  }

  lemma UnlinkedSeams(b0: seq<byte>, first: nat, hs: seq<Hole>, i: nat, b: seq<byte>)
    requires Listed(b0, first, hs) && i < |hs| && |b| == IP_PKTSIZE && Unlinked(b0, hs, i, b)
    ensures var hs' := Kept(hs, i) + hs[i + 1..]; var p := |Kept(hs, i)|;
            && (p > 0 ==> hs'[p - 1].block <= MAX_BLOCK && Linked(b, hs', p - 1))
            && (p < |hs'| ==> hs'[p].block <= MAX_BLOCK && Linked(b, hs', p))
  {
    hide Linked, Unlinked;
    if Kept(hs, i) != [] {
      UnlinkedSeamBefore(b0, first, hs, i, b);
    }
    if i + 1 < |hs| {
      UnlinkedSeamBehind(b0, first, hs, i, b);
    }
  }

  /** Hole `i` taken off the list: only its neighbours' links to it change. */
  lemma RemovalKeepsList(b0: seq<byte>, first: nat, hs: seq<Hole>, i: nat, b: seq<byte>)
    requires Listed(b0, first, hs) && i < |hs| && |b| == IP_PKTSIZE && Unlinked(b0, hs, i, b)
    requires Kept(hs, i) + hs[i + 1..] != []
    ensures var hs' := Kept(hs, i) + hs[i + 1..]; Listed(b, hs'[0].block, hs')
  {
    hide Linked, NextOf, PrevOf, At;
    UnlinkedSeams(b0, first, hs, i, b);
    var before := Kept(hs, i);
    WfReplace(hs, i, before, []);
    assert before + [] + hs[i + 1..] == before + hs[i + 1..];
    Others(hs, i);
    Relinked(b0, first, hs, i, b, before, []);
  }

  /** `b` is `b0` with the end of hole `i` moved to `start`. */
  ghost predicate Shortened(b0: seq<byte>, hs: seq<Hole>, i: nat, start: nat, b: seq<byte>)
    requires |b0| == |b| == IP_PKTSIZE && i < |hs|
  {
    forall n: nat, g: nat {:trigger Field(b, n, g)} :: n <= MAX_BLOCK && g < 4 ==>
      Field(b, n, g) == if n == hs[i].block && g == LAST then start else Field(b0, n, g)
  }

  lemma ShorteningKeepsList(b0: seq<byte>, first: nat, hs: seq<Hole>, i: nat, start: nat, b: seq<byte>)
    requires Listed(b0, first, hs) && i < |hs| && |b| == IP_PKTSIZE && Shortened(b0, hs, i, start, b)
    requires Wf(hs[i := Hole(hs[i].block, start)])
    ensures Listed(b, first, hs[i := Hole(hs[i].block, start)])
  {
    Others(hs, i);
    var hs' := hs[i := Hole(hs[i].block, start)];
    forall j | 0 <= j < |hs'|
      ensures Linked(b, hs', j)
    {
      assert Linked(b0, hs, j);
    }
  }

  /** `b` is `b0` with the descriptor of hole `i` moved to block `k` and its neighbours linked to it. */
  ghost predicate Moved(b0: seq<byte>, hs: seq<Hole>, i: nat, k: nat, b: seq<byte>)
    requires |b0| == |b| == IP_PKTSIZE && i < |hs| && hs[i].block <= MAX_BLOCK
  {
    forall n: nat, g: nat {:trigger Field(b, n, g)} :: n <= MAX_BLOCK && g < 4 ==>
      if n == k then Field(b, n, g) == Field(b0, hs[i].block, g)
      else if i + 1 < |hs| && n == hs[i + 1].block && g == PREV then Field(b, n, g) == k
      else if !NoPrev(hs, i) && n == hs[i - 1].block && g == NEXT then Field(b, n, g) == k
      else Field(b, n, g) == Field(b0, n, g)
  }

  lemma MovedSeams(b0: seq<byte>, first: nat, hs: seq<Hole>, i: nat, k: nat, b: seq<byte>)
    requires Listed(b0, first, hs) && i < |hs| && |b| == IP_PKTSIZE && Moved(b0, hs, i, k, b)
    requires hs[i].block < k <= MAX_BLOCK && 8 * k + 8 <= hs[i].last
    ensures var hs' := Kept(hs, i) + [Hole(k, hs[i].last)] + hs[i + 1..]; var p := |Kept(hs, i)|;
            && (p > 0 ==> Linked(b, hs', p - 1))
            && Linked(b, hs', p)
            && (p + 1 < |hs'| ==> hs'[p + 1].block <= MAX_BLOCK && Linked(b, hs', p + 1))
  {
    Others(hs, i);
    var p := |Kept(hs, i)|;
    var hs' := Kept(hs, i) + [Hole(k, hs[i].last)] + hs[i + 1..];
    assert Linked(b0, hs, i);
    assert i + 1 < |hs| ==> Before(hs[i], hs[i + 1]);
    assert i > 0 ==> Before(hs[i - 1], hs[i]);
    if p > 0 {
      assert hs'[p - 1] == hs[i - 1] && Linked(b0, hs, i - 1);
      assert i + 1 < |hs| ==> Before(hs[i - 1], hs[i + 1]);
    }
    if p + 1 < |hs'| {
      assert hs'[p + 1] == hs[i + 1] && Linked(b0, hs, i + 1);
      assert i > 0 ==> Before(hs[i - 1], hs[i + 1]);
    }
  }

  lemma MovingKeepsList(b0: seq<byte>, first: nat, hs: seq<Hole>, i: nat, k: nat, b: seq<byte>)
    requires Listed(b0, first, hs) && i < |hs| && |b| == IP_PKTSIZE && Moved(b0, hs, i, k, b)
    requires hs[i].block < k <= MAX_BLOCK && 8 * k + 8 <= hs[i].last
    ensures var hs' := Kept(hs, i) + [Hole(k, hs[i].last)] + hs[i + 1..]; Listed(b, hs'[0].block, hs')
  {
    hide Linked, NextOf, PrevOf, At;
    MovedSeams(b0, first, hs, i, k, b);
    WfReplace(hs, i, Kept(hs, i), [Hole(k, hs[i].last)]);
    OthersInside(hs, i, k);
    Others(hs, i);
    Relinked(b0, first, hs, i, b, Kept(hs, i), [Hole(k, hs[i].last)]);
  }

  /** `b` is `b0` with hole `i` cut in two, from its beginning to `start` and from block `k` on. */
  ghost predicate Splits(b0: seq<byte>, hs: seq<Hole>, i: nat, start: nat, k: nat, b: seq<byte>)
    requires |b0| == |b| == IP_PKTSIZE && i < |hs| && hs[i].block <= MAX_BLOCK
  {
    forall n: nat, g: nat {:trigger Field(b, n, g)} :: n <= MAX_BLOCK && g < 4 ==>
      Field(b, n, g) ==
      if n == k then if g == PREV then hs[i].block else Field(b0, hs[i].block, g)
      else if n == hs[i].block && g == LAST then start
      else if n == hs[i].block && g == NEXT then k
      else if i + 1 < |hs| && n == hs[i + 1].block && g == PREV then k
      else Field(b0, n, g)
  }

  function SplitList(hs: seq<Hole>, i: nat, start: nat, k: nat): seq<Hole>
    requires i < |hs|
  {
    hs[..i] + [Hole(hs[i].block, start), Hole(k, hs[i].last)] + hs[i + 1..]
  }

  lemma SplitSeamBefore(b0: seq<byte>, first: nat, hs: seq<Hole>, i: nat, start: nat, k: nat, b: seq<byte>)
    requires Listed(b0, first, hs) && 0 < i < |hs| && |b| == IP_PKTSIZE && Splits(b0, hs, i, start, k, b)
    requires hs[i].block < k <= MAX_BLOCK && 8 * k + 8 <= hs[i].last
    ensures Linked(b, SplitList(hs, i, start, k), i - 1)
  {
    Others(hs, i);
    var hs' := SplitList(hs, i, start, k);
    assert hs'[i - 1] == hs[i - 1] && Linked(b0, hs, i - 1) && Before(hs[i - 1], hs[i]);
    assert i + 1 < |hs| ==> Before(hs[i - 1], hs[i + 1]);
  }

  lemma SplitSeamBehind(b0: seq<byte>, first: nat, hs: seq<Hole>, i: nat, start: nat, k: nat, b: seq<byte>)
    requires Listed(b0, first, hs) && i + 1 < |hs| && |b| == IP_PKTSIZE && Splits(b0, hs, i, start, k, b)
    requires hs[i].block < k <= MAX_BLOCK && 8 * k + 8 <= hs[i].last
    ensures var hs' := SplitList(hs, i, start, k);
         |hs'| > i + 2 && hs'[i + 2].block <= MAX_BLOCK && Linked(b, hs', i + 2)
  {
    Others(hs, i);
    var hs' := SplitList(hs, i, start, k);
    assert hs'[i + 2] == hs[i + 1] && Linked(b0, hs, i + 1) && Before(hs[i], hs[i + 1]);
  }

  lemma SplitSeams(b0: seq<byte>, first: nat, hs: seq<Hole>, i: nat, start: nat, k: nat, b: seq<byte>)
    requires Listed(b0, first, hs) && i < |hs| && |b| == IP_PKTSIZE && Splits(b0, hs, i, start, k, b)
    requires hs[i].block < k <= MAX_BLOCK && 8 * k + 8 <= hs[i].last
    ensures var hs' := SplitList(hs, i, start, k);
            && |hs'| == |hs| + 1 && (i > 0 ==> Linked(b, hs', i - 1))
            && hs'[i] == Hole(hs[i].block, start) && hs'[i + 1] == Hole(k, hs[i].last)
            && Linked(b, hs', i) && Linked(b, hs', i + 1)
            && (i + 2 < |hs'| ==> hs'[i + 2].block <= MAX_BLOCK && Linked(b, hs', i + 2))
  {
    if i > 0 {
      SplitSeamBefore(b0, first, hs, i, start, k, b);
    }
    if i + 1 < |hs| {
      SplitSeamBehind(b0, first, hs, i, start, k, b);
    }
    assert Linked(b0, hs, i);
    assert i + 1 < |hs| ==> Before(hs[i], hs[i + 1]);
    assert i > 0 ==> Before(hs[i - 1], hs[i]);
  }

  lemma SplittingKeepsList(b0: seq<byte>, first: nat, hs: seq<Hole>, i: nat, start: nat, k: nat, b: seq<byte>)
    requires Listed(b0, first, hs) && i < |hs| && |b| == IP_PKTSIZE && Splits(b0, hs, i, start, k, b)
    requires hs[i].block < k <= MAX_BLOCK && 8 * k + 8 <= hs[i].last
    requires 8 * hs[i].block + 8 <= start < 8 * k && start % 8 == 0
    ensures Listed(b, first, SplitList(hs, i, start, k))
  {
    hide Linked, NextOf, PrevOf, At;
    SplitSeams(b0, first, hs, i, start, k, b);
    var rest := [Hole(hs[i].block, start), Hole(k, hs[i].last)];
    WfReplace(hs, i, hs[..i], rest);
    OthersInside(hs, i, k);
    Others(hs, i);
    Relinked(b0, first, hs, i, b, hs[..i], rest);
  }

  lemma OthersInside(hs: seq<Hole>, i: nat, k: nat)
    requires Wf(hs) && i < |hs| && hs[i].block <= k && 8 * k < hs[i].last
    ensures forall j {:trigger hs[j]} :: 0 <= j < |hs| && j != i ==> hs[j].block != k
  {
    forall j | 0 <= j < |hs|
      ensures j < i ==> Before(hs[j], hs[i])
      ensures i < j ==> Before(hs[i], hs[j])
    {
    }
  }

  /** The holes of a list begin at different blocks. */
  lemma Others(hs: seq<Hole>, i: nat)
    requires Wf(hs) && i < |hs|
    ensures forall j {:trigger hs[j]} :: 0 <= j < |hs| && j != i ==> hs[j].block != hs[i].block
    ensures forall j {:trigger hs[j]} :: 0 <= j < i - 1 ==> hs[j].block != hs[i - 1].block
    ensures forall j {:trigger hs[j]} :: i + 1 < j < |hs| ==> hs[j].block != hs[i + 1].block
  {
    forall j | 0 <= j < |hs|
      ensures j < i - 1 ==> Before(hs[j], hs[i - 1])
      ensures i + 1 < j ==> Before(hs[i + 1], hs[j])
      ensures j < i ==> Before(hs[j], hs[i])
      ensures i < j ==> Before(hs[i], hs[j])
    {
    }
  }
}
