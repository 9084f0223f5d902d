/**
 Arrival orders of the fragments of one datagram, and what they do to the hole list.

 A datagram of `|cuts| - 1` fragments is cut at the byte offsets `cuts`; fragment `k` holds the
 bytes from `cuts[k]` to `cuts[k + 1]`. Domain: fragments as RFC 791 section 3.2 makes them, and a
 payload small enough for a hole descriptor to fit wherever a hole can begin.
 */
module FragmentOrder {
  import opened HoleList

  ghost predicate IsCuts(c: seq<nat>) {
    && |c| >= 2 && c[0] == 0 && c[|c| - 1] <= 16360
    && (forall j, k {:trigger c[j], c[k]} :: 0 <= j < k < |c| ==> c[j] < c[k])
    && (forall k {:trigger c[k]} :: 0 <= k < |c| - 1 ==> c[k] % 8 == 0)
  }

  function Count(c: seq<nat>): nat
    requires |c| >= 2
  {
    |c| - 1
  }

  /** Every fragment of the datagram is in `got`. */
  ghost predicate Complete(c: seq<nat>, got: set<nat>)
    requires |c| >= 2
  {
    forall k: nat {:trigger k in got} :: k < Count(c) ==> k in got
  }

  function StepFragment(hs: seq<Hole>, c: seq<nat>, k: nat): (seq<Hole>, Verdict)
    requires k + 1 < |c| && c[k] <= c[k + 1]
  {
    Step(hs, c[k], c[k + 1] - c[k], k + 2 < |c|)
  }

  predicate FragmentLoses(hs: seq<Hole>, c: seq<nat>, k: nat)
    requires k + 1 < |c| && c[k] <= c[k + 1]
  {
    Loses(hs, c[k], c[k + 1] - c[k], k + 2 < |c|)
  }

  predicate Inside(h: Hole, c: seq<nat>, k: nat)
    requires k + 1 < |c|
  {
    8 * h.block <= c[k] && c[k + 1] <= h.last
  }

  predicate FitsHole(h: Hole, c: seq<nat>, k: nat)
    requires k + 1 < |c|
  {
    || (Inside(h, c, k) && (k + 2 == |c| ==> h.last == UNKNOWN_END))
    || c[k + 1] <= 8 * h.block
    || h.last <= c[k]
  }

  ghost predicate BeginsAtCut(h: Hole, c: seq<nat>) {
    exists k {:trigger c[k]} :: 0 <= k < |c| - 1 && c[k] == 8 * h.block
  }

  ghost predicate InsideSome(hs: seq<Hole>, c: seq<nat>, k: nat)
    requires k + 1 < |c|
  {
    exists h :: h in hs && Inside(h, c, k)
  }

  /** The holes are exactly the fragments that are not in `got`, joined to maximal runs. */
  ghost predicate Describes(hs: seq<Hole>, c: seq<nat>, got: set<nat>)
    requires IsCuts(c)
  {
    && Wf(hs)
    && (forall k :: k in got ==> k < Count(c))
    && (forall h :: h in hs ==> BeginsAtCut(h, c))
    && (forall h, k: nat {:trigger FitsHole(h, c, k)} :: h in hs && k < Count(c) ==> FitsHole(h, c, k))
    && (forall k: nat {:trigger k in got} {:trigger InsideSome(hs, c, k)} ::
      k < Count(c) ==> (k in got <==> !InsideSome(hs, c, k)))
  }

  lemma FreshDescribesNothing(c: seq<nat>)
    requires IsCuts(c)
    ensures Describes(FRESH, c, {})
  {
    assert c[0] == 8 * FRESH[0].block;
    assert FRESH[0] in FRESH;
    forall k: nat | k < Count(c)
      ensures InsideSome(FRESH, c, k)
    {
      assert c[k + 1] <= c[Count(c)];
      assert Inside(FRESH[0], c, k);
    }
  }

  lemma DescribesFits(hs: seq<Hole>, c: seq<nat>, got: set<nat>, k: nat)
    requires IsCuts(c) && Describes(hs, c, got) && k < Count(c)
    ensures Fits(hs, c[k], c[k + 1] - c[k], k + 2 < |c|)
  {
    assert c[k + 1] <= c[Count(c)];
    forall i | 0 <= i < |hs|
      ensures FitsHole(hs[i], c, k)
    {
      assert hs[i] in hs;
    }
  }

  /** The hole that `Find` gives for a missing fragment is the one that contains it. */
  lemma FindsItsHole(hs: seq<Hole>, c: seq<nat>, got: set<nat>, k: nat)
    requires IsCuts(c) && Describes(hs, c, got) && k < Count(c) && k !in got
    ensures var i := Find(hs, c[k]); i < |hs| && Inside(hs[i], c, k)
  {
    var h :| h in hs && Inside(h, c, k);
    var j :| 0 <= j < |hs| && hs[j] == h;
    var i := Find(hs, c[k]);
  }

  /** A repeated fragment changes no hole, although its bytes may be stored again. */
  lemma RepeatChangesNothing(hs: seq<Hole>, c: seq<nat>, got: set<nat>, k: nat)
    requires IsCuts(c) && Describes(hs, c, got) && k in got && hs != []
    ensures StepFragment(hs, c, k).0 == hs && StepFragment(hs, c, k).1 != Finished
    ensures !FragmentLoses(hs, c, k)
  {
    var i := Find(hs, c[k]);
    if i < |hs| {
      assert hs[i] in hs && FitsHole(hs[i], c, k);
      assert !Inside(hs[i], c, k);
      if hs[i].last <= c[k] {
        assert hs[i].last == c[k] && hs[i] == Hole(hs[i].block, c[k]);
        assert hs[..i] + [hs[i]] + hs[i + 1..] == hs;
      }
    }
  }

  /** Membership in the list after one hole is replaced. */
  lemma InReplaced(hs: seq<Hole>, i: nat, rest: seq<Hole>, h: Hole)
    requires Wf(hs) && i < |hs|
    ensures h in hs[..i] + rest + hs[i + 1..] <==> h in rest || (h in hs && h != hs[i])
  {
    if h in hs && h != hs[i] {
      var j :| 0 <= j < |hs| && hs[j] == h;
      assert j < i ==> hs[..i][j] == h;
      assert j > i ==> hs[i + 1..][j - i - 1] == h;
    }
    if h in hs[..i] {
      var j :| 0 <= j < i && hs[j] == h;
      assert Before(hs[j], hs[i]);
    }
    if h in hs[i + 1..] {
      var j :| i < j < |hs| && hs[j] == h;
      assert Before(hs[i], hs[j]);
    }
  }

  /** Fragment `n` lies in `rest` exactly when it lies in `h` and is not `k`. */
  ghost predicate Meets(h: Hole, c: seq<nat>, k: nat, rest: seq<Hole>, n: nat)
    requires n + 1 < |c|
  {
    && (forall g :: g in rest ==> FitsHole(g, c, n))
    && (InsideSome(rest, c, n) <==> Inside(h, c, n) && n != k)
  }

  /** What is left of a hole after fragment `k`, seen by a fragment `n` on either side of it. */
  lemma RestMeets(h: Hole, c: seq<nat>, k: nat, rest: seq<Hole>, n: nat)
    requires k + 1 < |c| && n + 1 < |c| && c[k] < c[k + 1] && c[n] < c[n + 1] && Inside(h, c, k)
    requires c[k] % 8 == 0 && (k + 2 < |c| ==> c[k + 1] % 8 == 0)
    requires n < k ==> c[n + 1] <= c[k]
    requires n > k ==> c[k + 1] <= c[n]
    requires FitsHole(h, c, n) && FitsHole(h, c, k)
    requires rest == Rest(h, if k + 2 < |c| then h.last else c[k + 1], c[k], c[k + 1] - c[k])
    ensures Meets(h, c, k, rest, n)
  {
    if n != k && Inside(h, c, n) {
      var g := if n < k then rest[0] else rest[|rest| - 1];
      assert g in rest && Inside(g, c, n);
    }
  }

  /** What is left of a hole after fragment `k`, seen fragment by fragment. */
  lemma RestDescribes(h: Hole, c: seq<nat>, k: nat, rest: seq<Hole>)
    requires IsCuts(c) && k < Count(c) && WfHole(h) && Inside(h, c, k)
    requires forall n: nat {:trigger FitsHole(h, c, n)} :: n < Count(c) ==> FitsHole(h, c, n)
    requires BeginsAtCut(h, c)
    requires rest == Rest(h, if k + 2 < |c| then h.last else c[k + 1], c[k], c[k + 1] - c[k])
    ensures forall g :: g in rest ==> BeginsAtCut(g, c)
    ensures forall g, n: nat {:trigger FitsHole(g, c, n)} :: g in rest && n < Count(c) ==> FitsHole(g, c, n)
    ensures !InsideSome(rest, c, k)
    ensures forall n: nat {:trigger InsideSome(rest, c, n)} ::
              n < Count(c) && n != k ==> (InsideSome(rest, c, n) <==> Inside(h, c, n))
  {
    assert FitsHole(h, c, k);
    assert c[k] % 8 == 0 && (k + 2 < |c| ==> c[k + 1] % 8 == 0);
    forall n: nat | n < Count(c)
      ensures Meets(h, c, k, rest, n)
    {
      assert FitsHole(h, c, n);
      assert n < k ==> c[n + 1] <= c[k];
      assert n > k ==> c[k + 1] <= c[n];
      RestMeets(h, c, k, rest, n);
    }
    forall g, n: nat | g in rest && n < Count(c)
      ensures FitsHole(g, c, n)
    {
      assert Meets(h, c, k, rest, n);
    }
    forall n: nat | n < Count(c)
      ensures n != k ==> (InsideSome(rest, c, n) <==> Inside(h, c, n))
      ensures n == k ==> !InsideSome(rest, c, n)
    {
      assert Meets(h, c, k, rest, n);
    }
  }

  ghost function RestOf(h: Hole, c: seq<nat>, k: nat): seq<Hole>
    requires k + 1 < |c| && c[k] <= c[k + 1]
  {
    Rest(h, if k + 2 < |c| then h.last else c[k + 1], c[k], c[k + 1] - c[k])
  }

  lemma StepFragmentWf(hs: seq<Hole>, c: seq<nat>, got: set<nat>, k: nat)
    requires IsCuts(c) && Describes(hs, c, got) && k < Count(c)
    ensures Wf(StepFragment(hs, c, k).0)
  {
    DescribesFits(hs, c, got, k);
    StepWf(hs, c[k], c[k + 1] - c[k], k + 2 < |c|);
  }

  lemma MissingHasRoom(hs: seq<Hole>, c: seq<nat>, got: set<nat>, k: nat)
    requires IsCuts(c) && Describes(hs, c, got) && k < Count(c) && k !in got
    ensures c[k] < c[k + 1] && Wf(hs) && Fits(hs, c[k], c[k + 1] - c[k], k + 2 < |c|)
    ensures var i := Find(hs, c[k]); i < |hs| && Inside(hs[i], c, k) && 8 * hs[i].block <= c[k]
  {
    DescribesFits(hs, c, got, k);
    FindsItsHole(hs, c, got, k);
  }

  /** Unless the first hole is lost, a missing fragment replaces its hole by what is left of it. */
  lemma StepReplaces(hs: seq<Hole>, c: seq<nat>, got: set<nat>, k: nat)
    requires IsCuts(c) && Describes(hs, c, got) && k < Count(c) && k !in got
    requires !FragmentLoses(hs, c, k)
    ensures var i := Find(hs, c[k]);
            && i < |hs| && Inside(hs[i], c, k)
            && StepFragment(hs, c, k).0 == hs[..i] + RestOf(hs[i], c, k) + hs[i + 1..]
    ensures StepFragment(hs, c, k).1 == if StepFragment(hs, c, k).0 == [] then Finished else Stored
  {
    hide Describes, Fits, Wf, Loses, Step, Rest, Inside;
    MissingHasRoom(hs, c, got, k);
    NotLosingReplaces(hs, c[k], c[k + 1] - c[k], k + 2 < |c|);
  }

  /** No other hole contains the fragment. */
  lemma OnlyItsHole(hs: seq<Hole>, c: seq<nat>, k: nat, h: Hole, g: Hole)
    requires IsCuts(c) && Wf(hs) && k < Count(c) && h in hs && Inside(h, c, k) && g in hs && g != h
    ensures !Inside(g, c, k)
  {
    var i :| 0 <= i < |hs| && hs[i] == h;
    var j :| 0 <= j < |hs| && hs[j] == g;
    assert Before(hs[i], hs[j]) || Before(hs[j], hs[i]);
  }

  /** Filling a missing fragment, unless that loses the first hole. */
  lemma NewFragmentFills(hs: seq<Hole>, c: seq<nat>, got: set<nat>, k: nat)
    requires IsCuts(c) && Describes(hs, c, got) && k < Count(c) && k !in got
    requires !FragmentLoses(hs, c, k)
    ensures Describes(StepFragment(hs, c, k).0, c, got + {k})
    ensures StepFragment(hs, c, k).1 == if StepFragment(hs, c, k).0 == [] then Finished else Stored
  {
    hide Step, Rest, StepFragment, Loses, Fits, FitsHole, Inside, WfHole, Before;
    StepReplaces(hs, c, got, k);
    StepFragmentWf(hs, c, got, k);
    var i := Find(hs, c[k]);
    var h, hs', rest := hs[i], StepFragment(hs, c, k).0, RestOf(hs[i], c, k);
    assert h in hs;
    RestDescribes(h, c, k, rest);
    forall g
      ensures g in hs' <==> g in rest || (g in hs && g != h)
    {
      InReplaced(hs, i, rest, g);
    }
    forall n: nat | n < Count(c)
      ensures n in got + {k} <==> !InsideSome(hs', c, n)
    {
      if g :| g in hs && g != h && Inside(g, c, n) {
        assert g in hs' && InsideSome(hs, c, n);
        if n == k { OnlyItsHole(hs, c, k, h, g); }
      } else {
        assert InsideSome(hs', c, n) <==> InsideSome(rest, c, n);
        assert n != k ==> (InsideSome(hs, c, n) <==> Inside(h, c, n));
      }
    }
  }

  /** With no hole left every fragment has arrived, and conversely. */
  lemma EmptyIffComplete(hs: seq<Hole>, c: seq<nat>, got: set<nat>)
    requires IsCuts(c) && Describes(hs, c, got)
    ensures hs == [] <==> Complete(c, got)
  {
    if hs != [] {
      assert hs[0] in hs;
      var k: nat :| k < |c| - 1 && c[k] == 8 * hs[0].block;
      assert FitsHole(hs[0], c, k);
      assert InsideSome(hs, c, k);
    } else {
      forall k: nat | k < Count(c)
        ensures k in got
      {
        assert !InsideSome(hs, c, k);
      }
    }
  }

  /** The fragments that lie in the first hole. */
  ghost function FirstRun(c: seq<nat>, last: nat): set<nat>
    requires |c| >= 2
  {
    set k: nat | k < Count(c) && c[k] < last
  }

  lemma OthersBehindFirst(hs: seq<Hole>, c: seq<nat>, n: nat)
    requires Wf(hs) && hs != [] && n + 1 < |c|
    ensures forall g :: g in hs[1..] && Inside(g, c, n) ==> c[n] >= hs[0].last
  {
    hide WfHole;
    forall g | g in hs[1..] && Inside(g, c, n)
      ensures c[n] >= hs[0].last
    {
      var j :| 0 < j < |hs| && hs[j] == g;
      assert Before(hs[0], hs[j]);
    }
  }

  /** Without its first hole, the list describes the datagram as if that hole had been filled. */
  lemma ForgettingFills(hs: seq<Hole>, c: seq<nat>, got: set<nat>)
    requires IsCuts(c) && Describes(hs, c, got) && |hs| > 1 && hs[0].block == 0
    ensures Describes(hs[1..], c, got + FirstRun(c, hs[0].last))
  {
    hide WfHole;
    assert hs[0] in hs;
    assert [] + [] + hs[1..] == hs[1..];
    WfReplace(hs, 0, [], []);
    forall g
      ensures g in hs[1..] <==> g in hs && g != hs[0]
    {
      InReplaced(hs, 0, [], g);
      assert hs[..0] + [] + hs[0 + 1..] == hs[1..];
    }
    forall n: nat | n < Count(c)
      ensures n in got + FirstRun(c, hs[0].last) <==> !InsideSome(hs[1..], c, n)
    {
      assert FitsHole(hs[0], c, n);
      assert c[n] < hs[0].last <==> Inside(hs[0], c, n);
      OthersBehindFirst(hs, c, n);
    }
  }

  /**
   Fragment `k` does no harm after the fragments in `got`. A caller can tell from the order alone:
   harm is done when the offset-0 fragment is still missing, and what has arrived below `k` is one
   run that reaches up to `k` with nothing received below it.
   */
  ghost predicate SafeAt(got: set<nat>, k: nat) {
    || 0 in got || k in got
    || !(exists t: nat {:trigger RunFrom(got, t, k)} :: RunFrom(got, t, k))
  }

  ghost predicate RunFrom(got: set<nat>, t: nat, k: nat) {
    && 0 < t < k
    && (forall j: nat {:trigger j in got} :: t <= j < k ==> j in got)
    && (forall j: nat {:trigger j in got} :: j < t ==> j !in got)
  }

  /** A hole with a known end stops at a fragment that has arrived. */
  lemma HoleStops(hs: seq<Hole>, c: seq<nat>, got: set<nat>, h: Hole) returns (t: nat)
    requires IsCuts(c) && Describes(hs, c, got) && h in hs && h.last < c[Count(c)]
    ensures 0 < t < Count(c) && c[t] == h.last && t in got
    ensures forall j: nat {:trigger c[j]} :: j < t ==> c[j] < h.last
  {
    t := 0;
    while c[t] < h.last
      invariant t <= Count(c)
      invariant forall j: nat {:trigger c[j]} :: j < t ==> c[j] < h.last
      decreases Count(c) - t
    {
      t := t + 1;
    }
    assert FitsHole(h, c, t - 1);
    var i :| 0 <= i < |hs| && hs[i] == h;
    forall g | g in hs
      ensures !Inside(g, c, t)
    {
      var j :| 0 <= j < |hs| && hs[j] == g;
      assert Before(hs[i], hs[j]) || Before(hs[j], hs[i]) || i == j;
    }
  }

  lemma LosesOnlyWhenUnsafe(hs: seq<Hole>, c: seq<nat>, got: set<nat>, k: nat)
    requires IsCuts(c) && Describes(hs, c, got) && k < Count(c) && k !in got
    requires FragmentLoses(hs, c, k)
    ensures !SafeAt(got, k)
  {
    FindsItsHole(hs, c, got, k);
    assert Before(hs[0], hs[1]);
    assert 8 * hs[1].block == c[k];
    var t := HoleStops(hs, c, got, hs[0]);
    forall j: nat | j < k
      ensures j in got <==> t <= j
    {
      assert FitsHole(hs[0], c, j);
      if t <= j {
        forall g | g in hs
          ensures !Inside(g, c, j)
        {
          var i :| 0 <= i < |hs| && hs[i] == g;
          assert i > 1 ==> Before(hs[1], hs[i]);
        }
      } else {
        assert Inside(hs[0], c, j);
      }
    }
    assert RunFrom(got, t, k);
    assert FitsHole(hs[0], c, 0);
  }

  /** With a run of fragments behind the missing beginning, the second hole begins behind the run. */
  lemma SecondHoleBehindRun(hs: seq<Hole>, c: seq<nat>, got: set<nat>, t: nat, k: nat)
    requires IsCuts(c) && Describes(hs, c, got) && k < Count(c) && RunFrom(got, t, k)
    requires |hs| > 1 && hs[0].block == 0 && hs[0].last < c[Count(c)]
    ensures c[k] <= 8 * hs[1].block
  {
    var u := HoleStops(hs, c, got, hs[0]);
    assert t <= u;
    assert hs[1] in hs;
    var b: nat :| b < Count(c) && c[b] == 8 * hs[1].block;
    assert FitsHole(hs[1], c, b) && InsideSome(hs, c, b) && b !in got;
    assert Before(hs[0], hs[1]);
    assert b >= t;
    assert b >= k;
  }

  lemma UnsafeLoses(hs: seq<Hole>, c: seq<nat>, got: set<nat>, k: nat)
    requires IsCuts(c) && Describes(hs, c, got) && k < Count(c)
    requires !SafeAt(got, k)
    ensures FragmentLoses(hs, c, k)
  {
    hide Step, Rest;
    var t: nat :| RunFrom(got, t, k);
    FindsItsHole(hs, c, got, k);
    FindsItsHole(hs, c, got, 0);
    var i := Find(hs, c[k]);
    assert t in got && !InsideSome(hs, c, t);
    assert hs[0].block == 0;
    assert !Inside(hs[0], c, k);
    assert Before(hs[0], hs[i]);
    SecondHoleBehindRun(hs, c, got, t, k);
  }

  /** The fragments the list takes for received once `k` has arrived too. */
  ghost function Taken(hs: seq<Hole>, c: seq<nat>, got: set<nat>, k: nat): set<nat>
    requires IsCuts(c) && k < Count(c) && hs != []
  {
    if k !in got && FragmentLoses(hs, c, k) then got + FirstRun(c, hs[0].last) + {k} else got + {k}
  }

  /** Every arrival keeps the list a description of what it takes for received. */
  lemma ArrivalKeepsDescription(hs: seq<Hole>, c: seq<nat>, got: set<nat>, k: nat)
    requires IsCuts(c) && Describes(hs, c, got) && hs != [] && k < Count(c)
    ensures Describes(StepFragment(hs, c, k).0, c, Taken(hs, c, got, k))
    ensures StepFragment(hs, c, k).1 == Finished <==> StepFragment(hs, c, k).0 == []
    ensures k !in got ==> StepFragment(hs, c, k).1 != Dropped
  {
    if k in got {
      RepeatChangesNothing(hs, c, got, k);
      assert got + {k} == got;
    } else if FragmentLoses(hs, c, k) {
      DescribesFits(hs, c, got, k);
      LosingIsForgetting(hs, c[k], c[k + 1] - c[k], k + 2 < |c|);
      ForgettingFills(hs, c, got);
      NewFragmentFills(hs[1..], c, got + FirstRun(c, hs[0].last), k);
    } else {
      NewFragmentFills(hs, c, got, k);
    }
  }

  /** The bytes of a received fragment lie outside every hole. */
  lemma ReceivedOutside(hs: seq<Hole>, c: seq<nat>, got: set<nat>, k: nat, q: nat)
    requires IsCuts(c) && Describes(hs, c, got) && k in got && c[k] <= q < c[k + 1]
    ensures forall h :: h in hs ==> !(8 * h.block <= q < h.last)
  {
    forall h | h in hs
      ensures !(8 * h.block <= q < h.last)
    {
      assert FitsHole(h, c, k) && !Inside(h, c, k);
    }
  }

  /** A repeat of the first fragment is always dropped. */
  lemma FirstRepeatDropped(hs: seq<Hole>, c: seq<nat>, got: set<nat>)
    requires IsCuts(c) && Describes(hs, c, got) && hs != [] && 0 in got
    ensures StepFragment(hs, c, 0).1 == Dropped
  {
    assert hs[0] in hs && FitsHole(hs[0], c, 0) && !Inside(hs[0], c, 0);
  }
}
