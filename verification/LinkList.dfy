/**
 The circular doubly linked lists of include/linklist.h. A list is the ring of its head and its
 entries; every operation turns rings into rings, and `modifies` says that no other ring changes.
 */
module LinkList {

  /** `struct list_head` */
  class Node {
    var next: Node?
    var prev: Node?

    /** `LIST_HEAD_INIT` */
    constructor ()
      ensures Ring([this])
    {
      next := this;
      prev := this;
    }
  }

  predicate Linked(a: Node, b: Node)
    reads a, b
  {
    a.next == b && b.prev == a
  }

  ghost predicate Distinct(s: seq<Node>) {
    forall i, j {:trigger s[i], s[j]} :: 0 <= i < j < |s| ==> s[i] != s[j]
  }

  predicate LinkedAt(s: seq<Node>, i: nat)
    requires i + 1 < |s|
    reads s
  {
    Linked(s[i], s[i + 1])
  }

  /** Different nodes, each linked both ways with the one behind it. */
  ghost predicate Chain(s: seq<Node>)
    reads s
  {
    && s != [] && Distinct(s)
    && (forall i: nat {:trigger LinkedAt(s, i)} :: i + 1 < |s| ==> LinkedAt(s, i))
  }

  /** A chain whose last node is linked with its first. */
  ghost predicate Ring(s: seq<Node>)
    reads s
  {
    Chain(s) && Linked(s[|s| - 1], s[0])
  }

  ghost predicate Disjoint(a: seq<Node>, b: seq<Node>) {
    forall n :: n in a ==> n !in b
  }

  /** A chain is two chains linked with each other. */
  lemma ChainConcat(a: seq<Node>, b: seq<Node>)
    requires a != [] && b != []
    ensures Chain(a + b) <==> Chain(a) && Chain(b) && Disjoint(a, b) && Linked(a[|a| - 1], b[0])
  {
    var s := a + b;
    if Chain(s) {
      forall i: nat | i + 1 < |a|
        ensures LinkedAt(a, i)
      {
        assert LinkedAt(s, i);
      }
      forall i: nat | i + 1 < |b|
        ensures LinkedAt(b, i)
      {
        assert LinkedAt(s, |a| + i);
      }
      assert LinkedAt(s, |a| - 1);
      forall i, j | 0 <= i < |a| && 0 <= j < |b|
        ensures a[i] != b[j]
      {
        assert s[i] == a[i] && s[|a| + j] == b[j];
      }
      forall i, j | 0 <= i < j < |a|
        ensures a[i] != a[j]
      {
        assert s[i] == a[i] && s[j] == a[j];
      }
      forall i, j | 0 <= i < j < |b|
        ensures b[i] != b[j]
      {
        assert s[|a| + i] == b[i] && s[|a| + j] == b[j];
      }
    } else if Chain(a) && Chain(b) && Disjoint(a, b) && Linked(a[|a| - 1], b[0]) {
      forall i: nat | i + 1 < |s|
        ensures LinkedAt(s, i)
      {
        if i + 1 < |a| {
          assert LinkedAt(a, i);
        } else if i >= |a| {
          assert LinkedAt(b, i - |a|);
        }
      }
      forall i, j | 0 <= i < j < |s|
        ensures s[i] != s[j]
      {
        assert i < |a| <= j ==> s[i] in a && s[j] in b;
      }
    }
  }

  /** A ring may be told from any of its nodes on. */
  lemma Rotated(a: seq<Node>, b: seq<Node>)
    requires Ring(a + b)
    ensures Ring(b + a)
  {
    if a == [] || b == [] {
      assert a + b == b + a;
    } else {
      ChainConcat(a, b);
      hide Chain;
      assert (a + b)[|a + b| - 1] == b[|b| - 1] && (a + b)[0] == a[0];
      ChainConcat(b, a);
    }
  }

  /** A chain stays one when only the links out of it change. */
  twostate lemma ChainStays(s: seq<Node>)
    requires old(Chain(s))
    requires forall i {:trigger s[i]} :: 0 <= i < |s| ==>
               (i + 1 < |s| ==> s[i].next == old(s[i].next)) && (i > 0 ==> s[i].prev == old(s[i].prev))
    ensures Chain(s)
  {
    forall i: nat | i + 1 < |s|
      ensures LinkedAt(s, i)
    {
      assert old(LinkedAt(s, i));
    }
  }

  /** A ring cut open before its `i`th node. */
  function CutAt(r: seq<Node>, i: nat): (c: seq<Node>)
    requires i <= |r|
    ensures |c| == |r|
  {
    r[i..] + r[..i]
  }

  lemma CutRing(r: seq<Node>, i: nat)
    requires Ring(r) && i <= |r|
    ensures Ring(CutAt(r, i))
  {
    assert r[..i] + r[i..] == r;
    Rotated(r[..i], r[i..]);
  }

  /** `__list_add`, between the end and the beginning of a ring cut open to the chain `c`. */
  method AddBetween(item: Node, prev: Node, next: Node, ghost c: seq<Node>)
    requires Chain(c) && c[0] == next && c[|c| - 1] == prev && item !in c
    modifies next`prev, item, prev`next
    ensures Ring([item] + c)
  {
    next.prev := item;
    item.next := next;
    item.prev := prev;
    prev.next := item;
    ChainStays(c);
    assert Chain([item]);
    ChainConcat([item], c);
  }

  lemma NotBehind(n: Node, t: seq<Node>)
    requires Distinct([n] + t)
    ensures n !in t
  {
    forall i | 0 <= i < |t|
      ensures t[i] != n
    {
      assert ([n] + t)[i + 1] == t[i] && ([n] + t)[0] == n;
    }
  }

  lemma FirstIsNext(head: Node, t: seq<Node>)
    requires Ring([head] + t)
    ensures head.next == (t + [head])[0] && head.prev == ([head] + t)[|t|]
    ensures Ring(t + [head]) && Chain(t + [head])
    ensures head.next in [head] + t && head.prev in [head] + t && head !in t
  {
    Rotated([head], t);
    NotBehind(head, t);
    assert (t + [head])[0] in [head] + t && ([head] + t)[|t|] in [head] + t;
    assert t != [] ==> LinkedAt([head] + t, 0);
  }

  /** `list_add`: the new entry comes first. */
  method Add(item: Node, head: Node, ghost t: seq<Node>)
    requires Ring([head] + t) && item !in [head] + t
    modifies item, [head] + t
    ensures Ring([head, item] + t)
  {
    FirstIsNext(head, t);
    AddBetween(item, head, head.next, t + [head]);
    assert [item] + (t + [head]) == ([item] + t) + [head];
    Rotated([item] + t, [head]);
    assert [head] + ([item] + t) == [head, item] + t;
  }

  /** `list_add_tail`: the new entry comes last. */
  method AddTail(item: Node, head: Node, ghost t: seq<Node>)
    requires Ring([head] + t) && item !in [head] + t
    modifies item, [head] + t
    ensures Ring([head] + t + [item])
  {
    FirstIsNext(head, t);
    AddBetween(item, head.prev, head, [head] + t);
    Rotated([item], [head] + t);
  }

  /** `__list_del`, with what is left as the chain `c`. */
  method Unlink(prev: Node, next: Node, ghost c: seq<Node>)
    requires Chain(c) && c[0] == next && c[|c| - 1] == prev
    modifies next`prev, prev`next
    ensures Ring(c)
  {
    next.prev := prev;
    prev.next := next;
    ChainStays(c);
  }

  method Init(list: Node)
    modifies list
    ensures Ring([list])
  {
    list.next := list;
    list.prev := list;
  }

  /** What is left of a ring without `entry`: the chain between its neighbours, or itself if it has none. */
  ghost function Others(entry: Node, c: seq<Node>): seq<Node> {
    if c == [] then [entry] else c
  }

  lemma OthersAreChain(entry: Node, c: seq<Node>)
    requires Ring([entry] + c)
    ensures var o := Others(entry, c); Chain(o) && entry.next == o[0] && entry.prev == o[|o| - 1]
    ensures entry !in c && entry.next in [entry] + c && entry.prev in [entry] + c
    ensures c == [] ==> entry.next == entry.prev == entry
  {
    FirstIsNext(entry, c);
    if c == [] {
      assert [entry] + c == [entry];
    } else {
      ChainConcat([entry], c);
    }
  }

  /** `list_del_init`: the entry becomes a ring of its own. */
  method DelInit(entry: Node, ghost c: seq<Node>)
    requires Ring([entry] + c)
    modifies [entry] + c
    ensures Ring([entry]) && (c != [] ==> Ring(c))
  {
    OthersAreChain(entry, c);
    Unlink(entry.prev, entry.next, Others(entry, c));
    label L:
    Init(entry);
    if c != [] {
      assert entry !in c;
      ChainStays@L(c);
    }
  }

  /** `list_replace` */
  method Replace(oldItem: Node, item: Node, ghost c: seq<Node>)
    requires Ring([oldItem] + c) && item !in [oldItem] + c
    modifies item, [oldItem] + c
    ensures Ring([item] + c)
  {
    OthersAreChain(oldItem, c);
    item.next := oldItem.next;
    item.next.prev := item;
    item.prev := oldItem.prev;
    item.prev.next := item;
    if c == [] {
      assert [item] + c == [item];
    } else {
      ChainStays(c);
      ChainConcat([item], c);
    }
  }

  /** `list_replace_init`: the new entry in the old one's place, and the old one on its own. */
  method ReplaceInit(oldItem: Node, item: Node, ghost c: seq<Node>)
    requires Ring([oldItem] + c) && item !in [oldItem] + c
    modifies item, [oldItem] + c
    ensures Ring([item] + c) && Ring([oldItem])
  {
    NotBehind(oldItem, c);
    Replace(oldItem, item, c);
    label L:
    assert oldItem !in [item] + c;
    Init(oldItem);
    ChainStays@L([item] + c);
  }

  /** The ring an entry is moved to: one that is disjoint from its own, or what is left of its own. */
  ghost predicate Receives(entry: Node, c: seq<Node>, head: Node, t: seq<Node>)
    reads [head] + t
  {
    || (Ring([head] + t) && Disjoint([entry] + c, [head] + t))
    || IsRotation(c, [head] + t)
  }

  ghost predicate IsRotation(c: seq<Node>, r: seq<Node>) {
    exists i: nat {:trigger CutAt(c, i)} :: i < |c| && CutAt(c, i) == r
  }

  lemma RotationIsRing(entry: Node, c: seq<Node>, r: seq<Node>)
    requires Ring(c) && entry !in c && IsRotation(c, r)
    ensures Ring(r) && entry !in r
  {
    var i: nat :| i < |c| && CutAt(c, i) == r;
    CutRing(c, i);
  }

  /** Unlinks an entry that goes to another ring. */
  method Leave(entry: Node, head: Node, ghost c: seq<Node>, ghost t: seq<Node>)
    requires Ring([entry] + c) && Receives(entry, c, head, t)
    modifies [entry] + c
    ensures (c != [] ==> Ring(c)) && Ring([head] + t) && entry !in [head] + t && entry !in c
  {
    ghost var r := [head] + t;
    OthersAreChain(entry, c);
    Unlink(entry.prev, entry.next, Others(entry, c));
    if IsRotation(c, r) {
      RotationIsRing(entry, c, r);
    } else {
      assert entry in [entry] + c;
      forall i | 0 <= i < |r|
        ensures r[i].next == old(r[i].next) && r[i].prev == old(r[i].prev)
      {
        assert r[i] in r;
      }
      ChainStays(r);
    }
  }

  /** `list_move`: the entry leaves its ring and comes first in the other. */
  method Move(entry: Node, head: Node, ghost c: seq<Node>, ghost t: seq<Node>)
    requires Ring([entry] + c) && Receives(entry, c, head, t)
    modifies [entry] + c, [head] + t
    ensures Ring([head, entry] + t)
    ensures c != [] && Disjoint(c, [head] + t) ==> Ring(c)
  {
    Leave(entry, head, c, t);
    label L:
    Add(entry, head, t);
    if c != [] && Disjoint(c, [head] + t) {
      forall i | 0 <= i < |c|
        ensures c[i].next == old@L(c[i].next) && c[i].prev == old@L(c[i].prev)
      {
        assert c[i] in c && c[i] != entry && c[i] !in [head] + t;
      }
      ChainStays@L(c);
    }
  }

  /** `list_move_tail`: the entry comes last. */
  method MoveTail(entry: Node, head: Node, ghost c: seq<Node>, ghost t: seq<Node>)
    requires Ring([entry] + c) && Receives(entry, c, head, t)
    modifies [entry] + c, [head] + t
    ensures Ring([head] + t + [entry])
    ensures c != [] && Disjoint(c, [head] + t) ==> Ring(c)
  {
    Leave(entry, head, c, t);
    label L:
    AddTail(entry, head, t);
    if c != [] && Disjoint(c, [head] + t) {
      forall i | 0 <= i < |c|
        ensures c[i].next == old@L(c[i].next) && c[i].prev == old@L(c[i].prev)
      {
        assert c[i] in c && c[i] != entry && c[i] !in [head] + t;
      }
      ChainStays@L(c);
    }
  }

  // Cutting and splicing

  predicate IsEmpty(head: Node)
    reads head
  {
    head.next == head
  }

  predicate IsSingular(head: Node)
    reads head
  {
    !IsEmpty(head) && head.next == head.prev
  }

  lemma EmptyIffAlone(head: Node, t: seq<Node>)
    requires Ring([head] + t)
    ensures IsEmpty(head) <==> t == []
    ensures IsSingular(head) <==> |t| == 1
  {
    FirstIsNext(head, t);
    assert t != [] ==> ([head] + t)[1] == t[0] && ([head] + t)[|t|] == t[|t| - 1];
  }

  /** `list_for_each` meets the entries in order, each once, and ends. */
  method Collect(head: Node, ghost t: seq<Node>) returns (r: seq<Node>)
    requires Ring([head] + t)
    ensures r == t
  {
    ghost var s := [head] + t;
    r := [];
    var pos := head.next;
    assert t != [] ==> LinkedAt(s, 0);
    while pos != head
      invariant |r| <= |t| && r == t[..|r|]
      invariant pos == if |r| < |t| then t[|r|] else head
      decreases |t| - |r|
    {
      assert |r| + 2 < |s| ==> LinkedAt(s, |r| + 1);
      assert s[|r| + 1] == t[|r|];
      r := r + [pos];
      pos := pos.next;
    }
    if |r| < |t| {
      NotBehind(head, t);
    }
  }

  /** `list_is_last` */
  lemma LastIsBeforeHead(head: Node, t: seq<Node>, i: nat)
    requires Ring([head] + t) && i < |t|
    ensures t[i].next == head <==> i + 1 == |t|
  {
    var s := [head] + t;
    assert s[i + 1] == t[i] && (i + 1 < |t| ==> LinkedAt(s, i + 1));
    NotBehind(head, t);
  }

  /** `__list_cut_position` */
  method Cut(list: Node, head: Node, entry: Node, ghost x: seq<Node>, ghost y: seq<Node>)
    requires x != [] && x[|x| - 1] == entry && Ring([head] + x + y) && list !in [head] + x + y
    modifies list, [head] + x + y
    ensures Ring([list] + x) && Ring([head] + y)
  {
    ghost var z := y + [head];
    CutInTwo(head, x, y);
    assert x[0] in x && entry in x && z[0] in z && head in z;
    assert list !in x && list !in z;
    var itemFirst := entry.next;
    list.next := head.next;
    list.next.prev := list;
    list.prev := entry;
    entry.next := list;
    head.next := itemFirst;
    itemFirst.prev := head;
    forall i | 0 <= i < |z|
      ensures (i + 1 < |z| ==> z[i].next == old(z[i].next)) && (i > 0 ==> z[i].prev == old(z[i].prev))
    {
      assert z[i] in z && z[i] !in x;
      assert z[0] == itemFirst && z[|z| - 1] == head;
    }
    ChainStays(z);
    ChainStays(x);
    ChainConcat([list], x);
    Rotated(y, [head]);
  }

  lemma CutInTwo(head: Node, x: seq<Node>, y: seq<Node>)
    requires x != [] && Ring([head] + x + y)
    ensures Chain(x) && Chain(y + [head]) && Disjoint(x, y + [head])
    ensures head.next == x[0] && x[|x| - 1].next == (y + [head])[0]
    ensures forall n :: n in x || n in y + [head] <==> n in [head] + x + y
  {
    assert [head] + x + y == [head] + (x + y);
    FirstIsNext(head, x + y);
    assert (x + y) + [head] == x + (y + [head]);
    ChainConcat(x, y + [head]);
  }

  /**
   `list_cut_position`, at entry `i` of the list; 0 is the head itself. The entries up to it go to
   `list`, except that a `list` cut from an empty list stays as it is.
   */
  method CutPosition(list: Node, head: Node, entry: Node, ghost t: seq<Node>, ghost i: nat)
    requires Ring([head] + t) && i <= |t| && entry == ([head] + t)[i] && list !in [head] + t
    modifies list, [head] + t
    ensures t == [] ==> unchanged(list) && unchanged([head])
    ensures t != [] ==> Ring([list] + t[..i]) && Ring([head] + t[i..])
  {
    EmptyIffAlone(head, t);
    FirstIsNext(head, t);
    if IsEmpty(head) {
      return;
    }
    if IsSingular(head) && head.next != entry && head != entry {
      return;
    }
    if entry == head {
      assert i == 0;
      label L:
      Init(list);
      ChainStays@L([head] + t);
      assert [list] + t[..0] == [list] && t[0..] == t;
    } else {
      assert t[i - 1] == entry;
      assert [head] + t[..i] + t[i..] == [head] + t;
      Cut(list, head, entry, t[..i], t[i..]);
    }
  }

  /** `__list_splice`, between the end and the beginning of a ring cut open to the chain `c`. */
  method SpliceBetween(list: Node, prev: Node, next: Node, ghost m: seq<Node>, ghost c: seq<Node>)
    requires m != [] && Ring([list] + m) && Chain(c) && Disjoint([list] + m, c)
    requires c[0] == next && c[|c| - 1] == prev
    modifies m, prev, next
    ensures Ring(m + c) && unchanged(list)
  {
    FirstIsNext(list, m);
    ChainConcat([list], m);
    assert ([list] + m)[|m|] == m[|m| - 1];
    var first := list.next;
    var last := list.prev;
    assert list in [list] + m;
    assert first in m && last in m && next in c && prev in c;
    assert forall n :: n in m ==> n in [list] + m;
    first.prev := prev;
    prev.next := first;
    last.next := next;
    next.prev := last;
    ChainStays(m);
    ChainStays(c);
    ChainConcat(m, c);
  }

  /** `list_splice`: the entries of `list` come first. */
  method Splice(list: Node, head: Node, ghost m: seq<Node>, ghost t: seq<Node>)
    requires Ring([list] + m) && Ring([head] + t) && Disjoint([list] + m, [head] + t)
    modifies m, [head] + t
    ensures Ring([head] + m + t) && unchanged(list)
  {
    EmptyIffAlone(list, m);
    FirstIsNext(head, t);
    if !IsEmpty(list) {
      SpliceBetween(list, head, head.next, m, t + [head]);
      assert m + (t + [head]) == (m + t) + [head];
      Rotated(m + t, [head]);
      assert [head] + (m + t) == [head] + m + t;
    } else {
      assert [head] + m + t == [head] + t;
    }
  }

  /** `list_splice_tail`: the entries of `list` come last. */
  method SpliceTail(list: Node, head: Node, ghost m: seq<Node>, ghost t: seq<Node>)
    requires Ring([list] + m) && Ring([head] + t) && Disjoint([list] + m, [head] + t)
    modifies m, [head] + t
    ensures Ring([head] + t + m) && unchanged(list)
  {
    EmptyIffAlone(list, m);
    FirstIsNext(head, t);
    if !IsEmpty(list) {
      SpliceBetween(list, head.prev, head, m, [head] + t);
      Rotated(m, [head] + t);
    } else {
      assert [head] + t + m == [head] + t;
    }
  }

  /** `list_splice_init`: and `list` is left empty. */
  method SpliceInit(list: Node, head: Node, ghost m: seq<Node>, ghost t: seq<Node>)
    requires Ring([list] + m) && Ring([head] + t) && Disjoint([list] + m, [head] + t)
    modifies list, m, [head] + t
    ensures Ring([head] + m + t) && Ring([list])
  {
    EmptyIffAlone(list, m);
    if !IsEmpty(list) {
      Splice(list, head, m, t);
      label L:
      NotAmong(list, m, head, t);
      Init(list);
      ChainStays@L([head] + m + t);
    } else {
      assert [head] + m + t == [head] + t && [list] + m == [list];
    }
  }

  /** `list_splice_tail_init` */
  method SpliceTailInit(list: Node, head: Node, ghost m: seq<Node>, ghost t: seq<Node>)
    requires Ring([list] + m) && Ring([head] + t) && Disjoint([list] + m, [head] + t)
    modifies list, m, [head] + t
    ensures Ring([head] + t + m) && Ring([list])
  {
    EmptyIffAlone(list, m);
    if !IsEmpty(list) {
      SpliceTail(list, head, m, t);
      label L:
      NotAmong(list, m, head, t);
      Init(list);
      ChainStays@L([head] + t + m);
    } else {
      assert [head] + t + m == [head] + t && [list] + m == [list];
    }
  }

  lemma NotAmong(list: Node, m: seq<Node>, head: Node, t: seq<Node>)
    requires Distinct([list] + m) && Disjoint([list] + m, [head] + t)
    ensures list !in m && list !in [head] + t
  {
    assert list in [list] + m;
    NotBehind(list, m);
  }
}
