/**
 The hole list of RFC 815 as net/net.c keeps it, seen as a sequence of holes.

 A hole is named by the 8-byte block it begins at. Index 0 doubles as "none" in the
 `prev_hole` link, so a hole that begins at block 0 cannot be named as a predecessor:
 `Step` keeps that behaviour, and `SafeAt` says exactly when it does no harm.
 */
module HoleList {

  /** A hole from byte `8 * block` up to (not including) byte `last`. */
  datatype Hole = Hole(block: nat, last: nat)

  /** What one fragment leads to: nothing, its bytes stored, or the whole packet returned. */
  datatype Verdict = Dropped | Stored | Finished

  /** `last_byte` of a hole whose end is not known yet. */
  const UNKNOWN_END := 0xffff

  /** Bytes of payload the buffer has room for (`IP_MAXUDP`). */
  const MAX_PAYLOAD := 16364

  const FRESH := [Hole(0, UNKNOWN_END)]

  ghost predicate Wf(hs: seq<Hole>) {
    && (forall i {:trigger hs[i]} :: 0 <= i < |hs| ==> WfHole(hs[i]))
    && (forall i, j {:trigger hs[i], hs[j]} :: 0 <= i < j < |hs| ==> Before(hs[i], hs[j]))
  }

  /** A hole has room for its own 8-byte descriptor. */
  predicate WfHole(h: Hole) {
    8 * h.block + 8 <= h.last <= UNKNOWN_END && (h.last % 8 == 0 || h.last == UNKNOWN_END)
  }

  /** `g` ends before `h` begins, and at least one received byte lies between them. */
  predicate Before(g: Hole, h: Hole) {
    g.last < 8 * h.block
  }

  /** The first hole that reaches byte `start`; `|hs|` when there is none. */
  function Find(hs: seq<Hole>, start: nat): (i: nat)
    ensures i <= |hs|
    ensures i < |hs| ==> start <= hs[i].last
    ensures forall j {:trigger hs[j]} :: 0 <= j < i ==> hs[j].last < start
  {
    if hs == [] || start <= hs[0].last then 0 else 1 + Find(hs[1..], start)
  }

  /** Is the hole before index `i` missing, as far as a `prev_hole` link can tell? */
  predicate NoPrev(hs: seq<Hole>, i: nat)
    requires i < |hs|
  {
    i == 0 || hs[i - 1].block == 0
  }

  /** The list that stays reachable from `first_hole` when hole `i` becomes the first one. */
  function Kept(hs: seq<Hole>, i: nat): seq<Hole>
    requires i < |hs|
  {
    if NoPrev(hs, i) then [] else hs[..i]
  }

  /** What is left of hole `h`, now ending at `last`, when bytes `start .. start + len` are filled. */
  function Rest(h: Hole, last: nat, start: nat, len: nat): seq<Hole> {
    if start / 8 <= h.block then
      if last <= start + len then [] else [Hole(start / 8 + len / 8, last)]
    else
      if last <= start + len then [Hole(h.block, start)]
      else [Hole(h.block, start), Hole(start / 8 + len / 8, last)]
  }

  /** One fragment of `len` bytes at byte `start`, followed by more fragments or not. */
  function Step(hs: seq<Hole>, start: nat, len: nat, more: bool): (seq<Hole>, Verdict)
  {
    var i := Find(hs, start);
    if i == |hs| || start / 8 + (len + 7) / 8 <= hs[i].block then (hs, Dropped)
    else
      var last := if more then hs[i].last else start + len;
      var before := if start / 8 <= hs[i].block then Kept(hs, i) else hs[..i];
      var hs' := before + Rest(hs[i], last, start, len) + hs[i + 1..];
      (hs', if hs' == [] then Finished else Stored)
  }

  /** The fragment loses the hole at block 0: it fills the beginning of the hole after it. */
  predicate Loses(hs: seq<Hole>, start: nat, len: nat, more: bool) {
    var i := Find(hs, start);
    i == 1 && i < |hs| && hs[0].block == 0 && start / 8 <= hs[1].block < start / 8 + (len + 7) / 8
  }

  /** A fragment that lies inside one hole or touches none, as RFC 791 fragments do. */
  ghost predicate Fits(hs: seq<Hole>, start: nat, len: nat, more: bool) {
    && start % 8 == 0 && len > 0 && start + len <= MAX_PAYLOAD
    && (more ==> len % 8 == 0)
    && (forall i {:trigger hs[i]} :: 0 <= i < |hs| ==>
      || (8 * hs[i].block <= start && start + len <= hs[i].last && (!more ==> hs[i].last == UNKNOWN_END))
      || start + len <= 8 * hs[i].block
      || hs[i].last <= start)
  }

  lemma WfReplace(hs: seq<Hole>, i: nat, before: seq<Hole>, rest: seq<Hole>)
    requires Wf(hs) && i < |hs| && Wf(rest)
    requires before == [] || before == hs[..i]
    requires rest != [] ==> hs[i].block <= rest[0].block && rest[|rest| - 1].last <= hs[i].last
    ensures Wf(before + rest + hs[i + 1..])
  {
    var r := before + rest + hs[i + 1..];
    var p, q := |before|, |before| + |rest|;
    assert forall j {:trigger r[j]} :: 0 <= j < p ==> r[j] == hs[j];
    assert forall j {:trigger r[j]} :: p <= j < q ==> r[j] == rest[j - p];
    assert forall j {:trigger r[j]} :: q <= j < |r| ==> r[j] == hs[j - q + i + 1];
    forall j, k | 0 <= j < k < |r|
      ensures Before(r[j], r[k])
    {
      if p <= j < q {
        assert rest[j - p].last <= rest[|rest| - 1].last;
        if q <= k { assert Before(hs[i], hs[k - q + i + 1]); }
      } else if p <= k < q {
        assert rest[0].block <= rest[k - p].block;
        assert Before(hs[j], hs[i]);
      }
    }
  }

  lemma RestWf(h: Hole, start: nat, len: nat, more: bool)
    requires Wf([h]) && Fits([h], start, len, more)
    requires start <= h.last && h.block < start / 8 + (len + 7) / 8
    ensures var rest := Rest(h, if more then h.last else start + len, start, len);
            Wf(rest) && (rest != [] ==> h.block <= rest[0].block && rest[|rest| - 1].last <= h.last)
  {
    assert [h][0] == h;
    assert 8 * h.block < start + len;
  }

  lemma StepWf(hs: seq<Hole>, start: nat, len: nat, more: bool)
    requires Wf(hs) && Fits(hs, start, len, more)
    ensures Wf(Step(hs, start, len, more).0)
  {
    hide Rest, Before, WfHole;
    var i := Find(hs, start);
    if i < |hs| && hs[i].block < start / 8 + (len + 7) / 8 {
      RestWf(hs[i], start, len, more);
      WfReplace(hs, i, if start / 8 <= hs[i].block then Kept(hs, i) else hs[..i],
                Rest(hs[i], if more then hs[i].last else start + len, start, len));
    }
  }

  /** Losing the first hole is the same as never having had it. */
  lemma LosingIsForgetting(hs: seq<Hole>, start: nat, len: nat, more: bool)
    requires Wf(hs) && Fits(hs, start, len, more) && Loses(hs, start, len, more)
    ensures Step(hs, start, len, more) == Step(hs[1..], start, len, more)
  {
    assert Find(hs[1..], start) == 0;
    assert hs[1..][1..] == hs[2..];
  }

  /** Without a loss, the holes before the one that is filled all stay. */
  lemma NotLosingReplaces(hs: seq<Hole>, start: nat, len: nat, more: bool)
    requires Wf(hs) && Fits(hs, start, len, more) && !Loses(hs, start, len, more)
    requires var i := Find(hs, start); i < |hs| && 8 * hs[i].block <= start
    ensures var i := Find(hs, start); var hs' := Step(hs, start, len, more).0;
            hs' == hs[..i] + Rest(hs[i], if more then hs[i].last else start + len, start, len) + hs[i + 1..]
    ensures Step(hs, start, len, more).1 == if Step(hs, start, len, more).0 == [] then Finished else Stored
  {
    var i := Find(hs, start);
    assert hs[i].block < start / 8 + (len + 7) / 8;
    if i > 1 {
      assert Before(hs[0], hs[i - 1]);
    }
    assert start / 8 <= hs[i].block ==> hs[..i] == Kept(hs, i);
  }

  lemma RestAvoids(h: Hole, last: nat, start: nat, len: nat, g: Hole)
    requires start % 8 == 0 && (start + len < last ==> len % 8 == 0) && g in Rest(h, last, start, len)
    ensures g.last <= start || start + len <= 8 * g.block
  {
  }

  /** After a fragment is stored no hole shares a byte with it. */
  lemma StepAvoids(hs: seq<Hole>, start: nat, len: nat, more: bool)
    requires Wf(hs) && Fits(hs, start, len, more) && Step(hs, start, len, more).1 != Dropped
    ensures var hs' := Step(hs, start, len, more).0;
            forall j {:trigger hs'[j]} :: 0 <= j < |hs'| ==> hs'[j].last <= start || start + len <= 8 * hs'[j].block
  {
    var i := Find(hs, start);
    var before := if start / 8 <= hs[i].block then Kept(hs, i) else hs[..i];
    var rest := Rest(hs[i], if more then hs[i].last else start + len, start, len);
    var hs' := Step(hs, start, len, more).0;
    hide Rest;
    forall j | 0 <= j < |hs'|
      ensures hs'[j].last <= start || start + len <= 8 * hs'[j].block
    {
      if j < |before| {
        assert hs'[j] == hs[j];
      } else if j < |before| + |rest| {
        assert hs'[j] == rest[j - |before|] && hs'[j] in rest;
        RestAvoids(hs[i], if more then hs[i].last else start + len, start, len, hs'[j]);
      } else {
        assert hs'[j] == hs[j - |before| - |rest| + i + 1];
        assert Before(hs[i], hs'[j]);
      }
    }
  }

  /** The list that each of the four kinds of overlap leaves behind. */
  lemma StepCases(hs: seq<Hole>, start: nat, len: nat, more: bool)
    requires var i := Find(hs, start); i < |hs| && hs[i].block < start / 8 + (len + 7) / 8
    ensures var i, k := Find(hs, start), start / 8 + len / 8;
            var h, last := hs[i], if more then hs[i].last else start + len;
            var hs' := Step(hs, start, len, more).0;
            if start / 8 <= h.block then
              hs' == if last <= start + len then Kept(hs, i) + hs[i + 1..] else Kept(hs, i) + [Hole(k, last)] + hs[i + 1..]
            else
              hs' == if last <= start + len then hs[i := Hole(h.block, start)]
                     else hs[..i] + [Hole(h.block, start), Hole(k, last)] + hs[i + 1..]
  {
    var i := Find(hs, start);
    assert Kept(hs, i) + [] == Kept(hs, i);
    assert hs[i := Hole(hs[i].block, start)] == hs[..i] + [Hole(hs[i].block, start)] + hs[i + 1..];
  }

  /** The block a hole is moved to or split at lies inside the hole, with room for a descriptor. */
  lemma StepRoom(hs: seq<Hole>, start: nat, len: nat, more: bool)
    requires Wf(hs) && Fits(hs, start, len, more)
    requires var i := Find(hs, start); i < |hs| && hs[i].block < start / 8 + (len + 7) / 8
    ensures var h, k := hs[Find(hs, start)], start / 8 + len / 8;
            && (h.block < start / 8 ==> 8 * h.block + 8 <= start)
            && (more && start + len < h.last ==> h.block < k && 8 * k == start + len && 8 * k + 8 <= h.last)
  {
    hide Step, Rest, Before;
  }
}
