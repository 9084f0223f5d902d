/**
 The ring of Ethernet devices of net/eth_legacy.c, and the search of `eth_init` for one that works
 (with `eth_try_another` of net/eth_common.c).
 */
module DeviceRing {
  import Decimal

  datatype DeviceState = Init | Passive | Active

  class Device {
    var next: Device?
    var state: DeviceState
    var index: nat

    constructor ()
      ensures state == Passive
    {
      next, state, index := null, Passive, 0;
    }
  }

  /** The position behind `i` on a ring of `n`. */
  function Succ(i: nat, n: nat): (j: nat)
    requires i < n
    ensures j < n
  {
    if i + 1 == n then 0 else i + 1
  }

  /** The `next` links of devices. */
  ghost function Nexts(s: seq<Device>): (ns: seq<Device?>)
    reads s
    ensures |ns| == |s| && forall k {:trigger ns[k]} :: 0 <= k < |s| ==> ns[k] == s[k].next
  {
    if s == [] then [] else [s[0].next] + Nexts(s[1..])
  }

  predicate FollowedAt(s: seq<Device>, ns: seq<Device?>, i: nat)
    requires i < |s| == |ns|
  {
    ns[i] == s[Succ(i, |s|)]
  }

  ghost predicate Distinct(s: seq<Device>) {
    forall i, j {:trigger s[i], s[j]} :: 0 <= i < j < |s| ==> s[i] != s[j]
  }

  /** One cycle through all of `s`, in order, with the links `ns`. */
  ghost predicate CycleOf(s: seq<Device>, ns: seq<Device?>) {
    |ns| == |s| && Distinct(s) && forall i: nat {:trigger FollowedAt(s, ns, i)} :: i < |s| ==> FollowedAt(s, ns, i)
  }

  ghost predicate Cycle(s: seq<Device>)
    reads s
  {
    CycleOf(s, Nexts(s))
  }

  /** `s` without the element at `i`. */
  function Without<T>(s: seq<T>, i: nat): (r: seq<T>)
    requires i < |s|
    ensures |r| == |s| - 1
    ensures forall k {:trigger r[k]} :: 0 <= k < |r| ==> r[k] == if k < i then s[k] else s[k + 1]
  {
    s[..i] + s[i + 1..]
  }

  /** The devices of a ring in the order one meets them from position `i` on. */
  function From(s: seq<Device>, i: nat): (r: seq<Device>)
    requires i < |s|
    ensures |r| == |s|
    ensures forall k {:trigger r[k]} :: 0 <= k < |r| ==> r[k] == if i + k < |s| then s[i + k] else s[i + k - |s|]
  {
    s[i..] + s[..i]
  }

  ghost function Indices(s: seq<Device>): (ns: seq<nat>)
    reads s
    ensures |ns| == |s| && forall k {:trigger ns[k]} :: 0 <= k < |s| ==> ns[k] == s[k].index
  {
    if s == [] then [] else [s[0].index] + Indices(s[1..])
  }

  /** Devices are numbered in the order they were registered. */
  ghost predicate Numbered(ns: seq<nat>, limit: nat) {
    && (forall i {:trigger ns[i]} :: 0 <= i < |ns| ==> ns[i] < limit)
    && (forall i, j {:trigger ns[i], ns[j]} :: 0 <= i < j < |ns| ==> ns[i] < ns[j])
  }

  lemma NumberedStays(ns: seq<nat>, limit: nat)
    requires Numbered(ns, limit)
    ensures Numbered(ns + [limit], limit + 1)
    ensures forall i: nat {:trigger Without(ns, i)} :: i < |ns| ==> Numbered(Without(ns, i), limit)
  {
  }

  lemma StillIn(s: seq<Device>, i: nat, d: Device)
    requires i < |s| && d in s && d != s[i]
    ensures d in Without(s, i)
  {
    var k :| 0 <= k < |s| && s[k] == d;
    assert Without(s, i)[if k < i then k else k - 1] == d;
  }

  /** A device linked in behind the last one joins the cycle. */
  lemma Joins(s: seq<Device>, ns: seq<Device?>, dev: Device)
    requires CycleOf(s, ns) && dev !in s
    ensures CycleOf(s + [dev], if s == [] then [dev] else ns[|s| - 1 := dev] + [s[0]])
  {
    var t, nt := s + [dev], if s == [] then [dev] else ns[|s| - 1 := dev] + [s[0]];
    forall i: nat | i < |t|
      ensures FollowedAt(t, nt, i)
    {
      if i + 1 < |s| {
        assert FollowedAt(s, ns, i);
      }
    }
  }

  /** A device leaves the cycle when the one before it is linked past it. */
  lemma Leaves(s: seq<Device>, ns: seq<Device?>, i: nat)
    requires CycleOf(s, ns) && i < |s|
    ensures var j := Succ(i, |s|); CycleOf(Without(s, j), Without(ns[i := ns[j]], j))
  {
    var j := Succ(i, |s|);
    var t, nt := Without(s, j), Without(ns[i := ns[j]], j);
    assert FollowedAt(s, ns, j);
    forall k: nat | k < |t|
      ensures FollowedAt(t, nt, k)
    {
      assert FollowedAt(s, ns, if k < j then k else k + 1);
    }
  }

  lemma NextOnRing(s: seq<Device>, i: nat)
    requires Cycle(s) && i < |s|
    ensures s[i].next == s[Succ(i, |s|)]
    ensures forall k {:trigger s[k]} :: 0 <= k < |s| && k != i ==> s[k] != s[i]
  {
    assert FollowedAt(s, Nexts(s), i);
  }

  /** What `eth_try_another` works on: the current device, the first one that failed, the wrap mark. */
  datatype Rotation = Rotation(current: Device?, firstFailed: Device?, wrap: bool)

  /** One call of it, with rotation allowed. */
  ghost function Tried(r: Rotation, firstRestart: bool): Rotation
    reads r.current
  {
    if r.current == null then r
    else
      var failed := if firstRestart then r.current else r.firstFailed;
      Rotation(r.current.next, failed, r.wrap || failed == r.current.next)
  }

  class Devices {
    var devices: Device?
    var current: Device?
    var nextIndex: nat

    /** `first_failed` of `eth_try_another`, and `net_restart_wrap` */
    var firstFailed: Device?
    var wrap: bool

    /** the devices in the order they were registered */
    ghost var ring: seq<Device>

    constructor ()
      ensures Valid() && ring == [] && current == null && !wrap && firstFailed == null
    {
      devices, current, nextIndex, firstFailed, wrap, ring := null, null, 0, null, false, [];
    }

    ghost predicate Valid()
      reads this, ring
    {
      && Cycle(ring) && (if ring == [] then devices == null else devices == ring[0])
      && (current != null ==> current in ring)
      && Numbered(Indices(ring), nextIndex)
    }

    /** Walks to the device before `dev`, or to the last one if there is none. */
    method Before(dev: Device?) returns (cur: Device, ghost i: nat)
      requires Valid() && devices != null
      ensures i < |ring| && cur == ring[i]
      ensures if dev != null && dev in ring then cur.next == dev == ring[Succ(i, |ring|)]
              else i + 1 == |ring| && (dev != null ==> cur.next != dev)
    {
      hide CycleOf;
      cur := devices;
      i := 0;
      NextOnRing(ring, 0);
      while cur.next != devices && cur.next != dev
        invariant i < |ring| && cur == ring[i] && cur.next == ring[Succ(i, |ring|)]
        invariant forall k {:trigger ring[k]} :: 0 < k <= i ==> ring[k] != dev
        decreases |ring| - i
      {
        cur := cur.next;
        i := i + 1;
        NextOnRing(ring, i);
      }
      NextOnRing(ring, 0);
    }

    /** `eth_register`, of a device that is not registered yet. */
    method Register(dev: Device) returns (ret: int)
      requires Valid() && dev !in ring
      modifies this, dev, ring
      ensures Valid() && ring == old(ring) + [dev] && ret == 0
      ensures current == if old(ring) == [] then dev else old(current)
      ensures dev.state == Init && dev.index == old(nextIndex) && nextIndex == old(nextIndex) + 1
      ensures firstFailed == old(firstFailed) && wrap == old(wrap)
      ensures forall d :: d in old(ring) ==> d.state == old(d.state) && d.index == old(d.index)
    {
      hide CycleOf, Numbered, Nexts, Indices;
      ghost var was, ns, numbers := ring, Nexts(ring), Indices(ring);
      Joins(was, ns, dev);
      NumberedStays(numbers, nextIndex);
      if devices == null {
        devices := dev;
        current := dev;
      } else {
        var d, i := Before(null);
        NextOnRing(was, i);
        d.next := dev;
      }
      dev.state := Init;
      dev.next := devices;
      dev.index := nextIndex;
      nextIndex := nextIndex + 1;
      ring := ring + [dev];
      assert Indices(ring) == numbers + [dev.index];
      assert Nexts(ring) == if was == [] then [dev] else ns[|was| - 1 := dev] + [was[0]];
      ret := 0;
    }

    /** `eth_unregister`: takes exactly the given device off the ring, if it is there. */
    method Unregister(dev: Device) returns (ret: int, ghost at: nat)
      requires Valid()
      modifies this, ring
      ensures Valid() && (ret == 0 <==> dev in old(ring)) && (ret != 0 ==> ret == -19)
      ensures dev in old(ring) ==> at < |old(ring)| && old(ring)[at] == dev && ring == Without(old(ring), at)
      ensures dev !in old(ring) ==> ring == old(ring)
      ensures current == if dev in old(ring) && old(current) == dev then devices else old(current)
      ensures firstFailed == old(firstFailed) && wrap == old(wrap) && nextIndex == old(nextIndex)
      ensures forall d :: d in old(ring) ==> d.state == old(d.state) && d.index == old(d.index)
    {
      hide CycleOf, Numbered, Nexts, Indices, Without;
      at := 0;
      if devices == null {
        ret := -19;
        return;
      }
      ghost var was, ns := ring, Nexts(ring);
      var cur, i := Before(dev);
      if cur.next != dev {
        ret := -19;
        return;
      }
      at := Succ(i, |ring|);
      NextOnRing(was, i);
      NextOnRing(was, at);
      Leaves(was, ns, i);
      NumberedStays(Indices(was), nextIndex);
      ghost var numbers := Without(Indices(was), at);
      if current != null && current != dev {
        StillIn(was, at, current);
      }
      cur.next := dev.next;
      if devices == dev {
        devices := if dev.next == devices then null else dev.next;
      }
      if current == dev {
        current := devices;
      }
      ring := Without(was, at);
      assert ring != [] ==> devices == ring[0] && devices in ring;
      assert Indices(ring) == numbers;
      assert Nexts(ring) == Without(ns[i := ns[at]], at);
      ret := 0;
    }

    ghost function View(): Rotation
      reads this
    {
      Rotation(current, firstFailed, wrap)
    }

    /** `eth_try_another`; `rotate` is false if the environment variable `ethrotate` is "no". */
    method TryAnother(firstRestart: bool, rotate: bool)
      requires Valid()
      modifies this`current, this`firstFailed, this`wrap
      ensures Valid() && (current == null <==> old(current) == null)
      ensures View() == if rotate then old(Tried(View(), firstRestart)) else old(View())
    {
      hide CycleOf, Numbered, Nexts, Indices;
      if !rotate || current == null {
        return;
      }
      if firstRestart {
        firstFailed := current;
      }
      ghost var i :| 0 <= i < |ring| && ring[i] == current;
      NextOnRing(ring, i);
      current := current.next;
      if firstFailed == current {
        wrap := true;
      }
    }

    /** The current device is put to work. */
    method Activate()
      requires Valid() && current != null
      modifies current`state
      ensures Valid() && current.state == Active
    {
      hide CycleOf, Numbered, Nexts, Indices;
      ghost var ns, numbers := Nexts(ring), Indices(ring);
      current.state := Active;
      assert Nexts(ring) == ns && Indices(ring) == numbers;
    }

    /**
     `eth_init`; `outcome(k)` is what the driver's `init` returns at the `k`th try. With rotation the
     devices are tried in ring order from the current one on, each at most once, up to the first that
     succeeds, which alone becomes active; if none does, the current device is the one it was. The wrap
     mark is set on the way if the first failed device is met.
     */
    method InitDevices(outcome: nat -> int, rotate: bool, ghost at: nat) returns (ret: int, ghost tried: seq<Device>)
      requires Valid() && (current != null ==> at < |ring| && ring[at] == current)
      modifies this`current, this`firstFailed, this`wrap, ring
      ensures Valid() && ring == old(ring) && forall d :: d in ring ==> d.next == old(d.next) && d.index == old(d.index)
      ensures old(current) == null ==> ret == -19 && tried == [] && current == null
      ensures old(current) != null ==>
                && 0 < |tried| <= |ring| && tried == From(ring, at)[..|tried|]
                && (forall k: nat {:trigger outcome(k)} :: k + 1 < |tried| ==> outcome(k) < 0)
                && (if outcome(|tried| - 1) >= 0 then
                      ret == 0 && current == tried[|tried| - 1] && tried[|tried| - 1].state == Active
                    else
                      ret == -110 && current == old(current) && |tried| == if rotate then |ring| else 1)
      ensures forall d :: d in ring ==> d.state == if ret == 0 && d == current then Active else old(d.state)
      ensures firstFailed == old(firstFailed)
      ensures wrap <==> old(wrap) || (rotate && old(current) != null &&
                                      Meets(ring, at, if ret == 0 then |tried| - 1 else |tried|, firstFailed))
    {
      hide CycleOf, Numbered, Nexts, Indices, From, Meets;
      tried := [];
      if current == null {
        ret := -19;
        return;
      }
      var oldCurrent := current;
      StartFrom(ring, at);
      MeetsNone(ring, at, firstFailed);
      var tries: nat := 0;
      while true
        invariant Valid() && current != null && tries == |tried| < |ring| && tried == From(ring, at)[..|tried|]
        invariant current == From(ring, at)[|tried|] && (|tried| > 0 ==> rotate)
        invariant forall k: nat {:trigger outcome(k)} :: k < |tried| ==> outcome(k) < 0
        invariant forall d :: d in ring ==> d.next == old(d.next) && d.index == old(d.index) && d.state == old(d.state)
        invariant firstFailed == old(firstFailed)
        invariant wrap <==> old(wrap) || (rotate && Meets(ring, at, |tried|, firstFailed))
        decreases |ring| - |tried|
      {
        NextFrom(ring, at, |tried|);
        tried := tried + [current];
        tries := tries + 1;
        if outcome(tries - 1) >= 0 {
          Activate();
          return 0, tried;
        }
        MeetsNext(ring, at, |tried| - 1, firstFailed);
        TryAnother(false, rotate);
        if oldCurrent == current {
          return -110, tried;
        }
      }
    }
  }

  /** Is `d` among the devices to which `k` rotations from position `at` lead? */
  ghost predicate Meets(s: seq<Device>, at: nat, k: nat, d: Device?)
    requires at < |s|
  {
    exists j: nat {:trigger Rotated(s, at, j)} :: 0 < j <= k && Rotated(s, at, j) == d
  }

  lemma MeetsNext(s: seq<Device>, at: nat, k: nat, d: Device?)
    requires Cycle(s) && at < |s| && k < |s|
    ensures Meets(s, at, k + 1, d) <==> Meets(s, at, k, d) || From(s, at)[k].next == d
  {
    hide Meets, CycleOf, Rotated;
    RotationStep(s, at, k);
    MeetsOneMore(s, at, k, d);
    NthRotated(s, at, k);
  }

  lemma NthRotated(s: seq<Device>, at: nat, k: nat)
    requires at < |s| && k < |s|
    ensures Rotated(s, at, k) == From(s, at)[k]
  {
    Decimal.Unique(k, |s|, 0, k);
  }

  lemma MeetsNone(s: seq<Device>, at: nat, d: Device?)
    requires at < |s|
    ensures !Meets(s, at, 0, d)
  {
  }

  lemma MeetsOneMore(s: seq<Device>, at: nat, k: nat, d: Device?)
    requires at < |s|
    ensures Meets(s, at, k + 1, d) <==> Meets(s, at, k, d) || Rotated(s, at, k + 1) == d
  {
    hide Rotated;
    if Meets(s, at, k + 1, d) {
      var j: nat :| 0 < j <= k + 1 && Rotated(s, at, j) == d;
      assert j == k + 1 || 0 < j <= k;
    }
  }

  /** The device behind the `k`th one met from `at` on is the next one met; the first one behind the last. */
  lemma NextFrom(s: seq<Device>, at: nat, k: nat)
    requires Cycle(s) && at < |s| && k < |s|
    ensures var f := From(s, at);
         f[k].next == (if k + 1 < |s| then f[k + 1] else f[0]) && (k + 1 < |s| ==> f[k + 1] != f[0]) && f[k] in s
  {
    NextOnRing(s, if at + k < |s| then at + k else at + k - |s|);
  }

  lemma StartFrom(s: seq<Device>, at: nat)
    requires at < |s|
    ensures From(s, at)[0] == s[at]
  {
  }

  /** From any device on, one meets all devices of the ring, each once. */
  lemma FromMeetsAll(s: seq<Device>, at: nat)
    requires Distinct(s) && at < |s|
    ensures Distinct(From(s, at)) && From(s, at)[0] == s[at]
    ensures forall d :: d in From(s, at) <==> d in s
  {
    assert s == s[..at] + s[at..];
  }

  /** The current device after `k` rotations that began at position `at`. */
  function Rotated(s: seq<Device>, at: nat, k: nat): Device
    requires at < |s|
  {
    From(s, at)[k % |s|]
  }

  /** Each rotation follows a link, and the first device is met again exactly after whole rounds. */
  lemma RotationStep(s: seq<Device>, at: nat, k: nat)
    requires Cycle(s) && at < |s|
    ensures Rotated(s, at, k).next == Rotated(s, at, k + 1) && Rotated(s, at, k) in s
    ensures Rotated(s, at, k) == s[at] <==> k % |s| == 0
  {
    var i := k % |s|;
    NextFrom(s, at, i);
    FromMeetsAll(s, at);
    NextRemainder(k, |s|);
    assert i > 0 ==> From(s, at)[0] != From(s, at)[i];
  }

  lemma NextInRing(s: seq<Device>, d: Device)
    requires Cycle(s) && d in s
    ensures d.next != null && d.next in s
  {
    var i :| 0 <= i < |s| && s[i] == d;
    NextOnRing(s, i);
  }

  /** `k` failures in a row, the first of which is the first restart. */
  ghost function Retries(s: seq<Device>, r: Rotation, k: nat): (q: Rotation)
    requires Cycle(s) && r.current != null && r.current in s
    reads s
    ensures q.current != null && q.current in s
  {
    if k == 0 then r
    else
      var p := Retries(s, r, k - 1);
      NextInRing(s, p.current);
      Tried(p, k == 1)
  }

  /** The wrap mark is first set at the failure that brings the search back to the first failed device. */
  lemma {:induction false} WrapsAfterOneRound(s: seq<Device>, at: nat, r: Rotation, k: nat)
    requires Cycle(s) && at < |s| && r.current == s[at] && !r.wrap
    ensures var q := Retries(s, r, k);
         && q.current == Rotated(s, at, k) && (q.wrap <==> k >= |s|)
         && (k > 0 ==> q.firstFailed == s[at])
  {
    hide Rotated, CycleOf;
    RotationStep(s, at, k);
    if k == 0 {
      assert 0 % |s| == 0;
    } else {
      WrapsAfterOneRound(s, at, r, k - 1);
      RotationStep(s, at, k - 1);
      if k <= |s| {
        WholeRound(k, |s|);
      }
    }
  }

  lemma WholeRound(k: nat, n: nat)
    requires n > 0 && 0 < k <= n
    ensures k % n == 0 <==> k == n
  {
  }

  lemma NextRemainder(k: nat, n: nat)
    requires n > 0
    ensures (k + 1) % n == if k % n + 1 == n then 0 else k % n + 1
  {
    if k % n + 1 == n {
      Decimal.Unique(k + 1, n, k / n + 1, 0);
    } else {
      Decimal.Unique(k + 1, n, k / n, k % n + 1);
    }
  }
}
