/** `memcpy` and `memset` of common.c, word by word where addresses allow it. */
module Memory {
  import opened Bytes
  import Decimal

  /** The octets of an `unsigned long`. */
  const WORD := 8

  // Words

  /** The number a little-endian machine loads. */
  function WordOf(b: seq<byte>): nat {
    if b == [] then 0 else b[0] + 256 * WordOf(b[1..])
  }

  /** What it stores for the low `n` octets of a number. */
  function OctetsOf(w: nat, n: nat): (b: seq<byte>)
    ensures |b| == n
  {
    if n == 0 then [] else [w % 256] + OctetsOf(w / 256, n - 1)
  }

  lemma {:induction false} LoadThenStore(b: seq<byte>)
    ensures OctetsOf(WordOf(b), |b|) == b
  {
    if b != [] {
      LoadThenStore(b[1..]);
      assert WordOf(b) % 256 == b[0] && WordOf(b) / 256 == WordOf(b[1..]);
    }
  }

  // Copying

  /** The byte loop: one octet after the other, lowest address first. */
  function CopyForward(m: seq<byte>, dest: nat, src: nat, count: nat): (r: seq<byte>)
    requires dest + count <= |m| && src + count <= |m|
    ensures |r| == |m|
    decreases count
  {
    if count == 0 then m else CopyForward(m[dest := m[src]], dest + 1, src + 1, count - 1)
  }

  /** Where octet `k` of the copy comes from: a destination behind the source by less than `count` repeats its start. */
  function Origin(dest: nat, src: nat, k: nat): (o: nat)
    ensures src <= o <= src + k
  {
    src + if dest > src then k % (dest - src) else k
  }

  /** What a copy of `count` octets leaves at address `j`. */
  function CopiedOctet(m: seq<byte>, dest: nat, src: nat, count: nat, j: nat): byte
    requires src + count <= |m| && j < |m|
  {
    if dest <= j < dest + count then m[Origin(dest, src, j - dest)] else m[j]
  }

  predicate IsCopy(m: seq<byte>, r: seq<byte>, dest: nat, src: nat, count: nat)
    requires src + count <= |m| == |r|
  {
    forall j {:trigger r[j]} :: 0 <= j < |m| ==> r[j] == CopiedOctet(m, dest, src, count, j)
  }

  lemma {:induction false} CopySplit(m: seq<byte>, dest: nat, src: nat, a: nat, b: nat)
    requires dest + a + b <= |m| && src + a + b <= |m|
    ensures CopyForward(m, dest, src, a + b) == CopyForward(CopyForward(m, dest, src, a), dest + a, src + a, b)
    decreases a
  {
    if a > 0 {
      CopySplit(m[dest := m[src]], dest + 1, src + 1, a - 1, b);
    }
  }

  lemma OriginWraps(dest: nat, src: nat, n: nat)
    requires dest > src && n >= dest - src
    ensures Origin(dest, src, n - (dest - src)) == Origin(dest, src, n)
  {
    ModStep(n - (dest - src), dest - src);
  }

  lemma ModStep(x: nat, p: nat)
    requires p > 0
    ensures (x + p) % p == x % p
  {
    Decimal.Unique(x + p, p, x / p + 1, x % p);
  }

  lemma CopySnoc(m: seq<byte>, dest: nat, src: nat, n: nat)
    requires dest + n < |m| && src + n < |m|
    ensures var r := CopyForward(m, dest, src, n); CopyForward(m, dest, src, n + 1) == r[dest + n := r[src + n]]
  {
    CopySplit(m, dest, src, n, 1);
  }

  /** The octet copied next is where the one for its address comes from, or came from there itself. */
  lemma NextOctet(m: seq<byte>, dest: nat, src: nat, n: nat)
    requires dest + n < |m| && src + n < |m|
    ensures CopiedOctet(m, dest, src, n, src + n) == CopiedOctet(m, dest, src, n + 1, dest + n)
  {
    if dest > src && n >= dest - src {
      OriginWraps(dest, src, n);
      assert src + n - dest == n - (dest - src);
    } else {
      OriginPlain(dest, src, n);
    }
  }

  lemma OtherOctets(m: seq<byte>, dest: nat, src: nat, n: nat, j: nat)
    requires src + n < |m| && j < |m| && j != dest + n
    ensures CopiedOctet(m, dest, src, n + 1, j) == CopiedOctet(m, dest, src, n, j)
  {
  }

  lemma OneMoreCopied(m: seq<byte>, r: seq<byte>, dest: nat, src: nat, n: nat)
    requires dest + n < |m| == |r| && src + n < |m| && IsCopy(m, r, dest, src, n)
    ensures IsCopy(m, r[dest + n := r[src + n]], dest, src, n + 1)
  {
    hide CopiedOctet;
    NextOctet(m, dest, src, n);
    var t := r[dest + n := r[src + n]];
    forall j | 0 <= j < |m|
      ensures t[j] == CopiedOctet(m, dest, src, n + 1, j)
    {
      if j != dest + n {
        OtherOctets(m, dest, src, n, j);
      }
    }
  }

  lemma OriginPlain(dest: nat, src: nat, k: nat)
    requires dest <= src || k < dest - src
    ensures Origin(dest, src, k) == src + k
  {
  }

  /** What the byte loop does, overlap or not. */
  lemma {:induction false} CopyForwardIsCopy(m: seq<byte>, dest: nat, src: nat, count: nat)
    requires dest + count <= |m| && src + count <= |m|
    ensures IsCopy(m, CopyForward(m, dest, src, count), dest, src, count)
    decreases count
  {
    hide Origin;
    if count == 0 {
      assert CopyForward(m, dest, src, 0) == m;
    } else {
      hide CopyForward, IsCopy;
      CopyForwardIsCopy(m, dest, src, count - 1);
      CopySnoc(m, dest, src, count - 1);
      OneMoreCopied(m, CopyForward(m, dest, src, count - 1), dest, src, count - 1);
    }
  }

  /** Apart from copies onto a later part of themselves, areas arrive as they were. */
  lemma {:induction false} CopyMoves(m: seq<byte>, dest: nat, src: nat, count: nat)
    requires dest + count <= |m| && src + count <= |m|
    requires dest <= src || src + count <= dest
    ensures CopyForward(m, dest, src, count) == Splice(m, dest, m[src..src + count])
  {
    hide CopyForward, Splice, Origin;
    CopyForwardIsCopy(m, dest, src, count);
    var r, t := CopyForward(m, dest, src, count), Splice(m, dest, m[src..src + count]);
    forall j | 0 <= j < |m|
      ensures r[j] == t[j]
    {
      if dest <= j < dest + count {
        OriginPlain(dest, src, j - dest);
      }
    }
  }

  /** For any other pair of areas there is a memory in which they do not. */
  lemma {:induction false} OverlapSpoils(size: nat, dest: nat, src: nat, count: nat) returns (m: seq<byte>)
    requires dest + count <= size && src < dest < src + count
    ensures |m| == size && CopyForward(m, dest, src, count)[dest..dest + count] != m[src..src + count]
  {
    m := seq(size, i => 0)[dest := 1];
    CopyForwardIsCopy(m, dest, src, count);
    var r := CopyForward(m, dest, src, count);
    var p := dest - src;
    ModStep(0, p);
    assert r[dest + p] == m[Origin(dest, src, p)] == m[src] == 0;
    assert r[dest..dest + count][p] == 0 && m[src..src + count][p] == 1;
  }

  /** Eight octets that do not overlap their copy may be loaded before any is stored. */
  lemma WordCopies(m: seq<byte>, dest: nat, src: nat)
    requires dest + WORD <= |m| && src + WORD <= |m|
    requires dest % WORD == src % WORD && dest != src
    ensures CopyForward(m, dest, src, WORD) == Splice(m, dest, OctetsOf(WordOf(m[src..src + WORD]), WORD))
  {
    LoadThenStore(m[src..src + WORD]);
    CopyMoves(m, dest, src, WORD);
  }

  lemma CopyOntoItself(m: seq<byte>, at: nat, count: nat)
    requires at + count <= |m|
    ensures CopyForward(m, at, at, count) == m
  {
    CopyMoves(m, at, at, count);
    assert Splice(m, at, m[at..at + count]) == m;
  }

  method StoreWord(mem: array<byte>, at: nat, w: nat)
    requires at + WORD <= mem.Length
    modifies mem
    ensures mem[..] == Splice(old(mem[..]), at, OctetsOf(w, WORD))
  {
    var b := OctetsOf(w, WORD);
    forall i | 0 <= i < WORD {
      mem[at + i] := b[i];
    }
  }

  /** The word loop of `memcpy`. */
  method CopyWords(mem: array<byte>, dest: nat, src: nat, count: nat) returns (done: nat)
    requires dest + count <= mem.Length && src + count <= mem.Length
    requires dest != src && dest % WORD == 0 && src % WORD == 0
    modifies mem
    ensures done <= count && mem[..] == CopyForward(old(mem[..]), dest, src, done)
  {
    hide Splice, WordOf, OctetsOf;
    ghost var was := mem[..];
    done := 0;
    while count - done >= WORD
      invariant done <= count && done % WORD == 0
      invariant mem[..] == CopyForward(was, dest, src, done)
    {
      hide CopyForward;
      Aligned(dest, done);
      Aligned(src, done);
      WordCopies(mem[..], dest + done, src + done);
      CopySplit(was, dest, src, done, WORD);
      StoreWord(mem, dest + done, WordOf(mem[src + done..src + done + WORD]));
      Aligned(done, WORD);
      done := done + WORD;
    }
  }

  lemma Aligned(x: nat, y: nat)
    requires x % WORD == 0 && y % WORD == 0
    ensures (x + y) % WORD == 0
  {
    Decimal.Unique(x + y, WORD, x / WORD + y / WORD, 0);
  }

  /** `memcpy`: the byte loop, on every pair of areas. */
  method Memcpy(mem: array<byte>, dest: nat, src: nat, count: nat)
    requires dest + count <= mem.Length && src + count <= mem.Length
    modifies mem
    ensures mem[..] == CopyForward(old(mem[..]), dest, src, count)
  {
    ghost var was := mem[..];
    if src == dest {
      CopyOntoItself(was, dest, count);
      return;
    }
    var done: nat := 0;
    if dest % WORD == 0 && src % WORD == 0 {
      done := CopyWords(mem, dest, src, count);
    }
    while done < count
      invariant done <= count && mem[..] == CopyForward(was, dest, src, done)
    {
      CopySplit(was, dest, src, done, 1);
      ghost var now := mem[..];
      mem[dest + done] := mem[src + done];
      assert mem[..] == now[dest + done := now[src + done]];
      done := done + 1;
    }
  }

  // Filling

  function Repeated(b: byte, n: nat): (s: seq<byte>)
    ensures |s| == n && forall k {:trigger s[k]} :: 0 <= k < n ==> s[k] == b
  {
    if n == 0 then [] else [b] + Repeated(b, n - 1)
  }

  function Pow256(n: nat): nat {
    if n == 0 then 1 else 256 * Pow256(n - 1)
  }

  lemma {:induction false} WordIsBelow(b: seq<byte>)
    ensures WordOf(b) < Pow256(|b|)
  {
    if b != [] {
      WordIsBelow(b[1..]);
    }
  }

  /** The word of eight equal octets, built by shifts. */
  method FillWord(c: int) returns (cl: nat)
    ensures cl == WordOf(Repeated(c % 256, WORD))
  {
    cl := 0;
    for i := 0 to WORD
      invariant cl == WordOf(Repeated(c % 256, i))
    {
      NoBitsLost(Repeated(c % 256, i));
      cl := cl * 256 % 0x1_0000_0000_0000_0000 + c % 256;
    }
  }

  lemma NoBitsLost(b: seq<byte>)
    requires |b| < WORD
    ensures WordOf(b) * 256 < 0x1_0000_0000_0000_0000
  {
    WordIsBelow(b);
    Pow256Grows(|b|, WORD - 1);
    assert Pow256(3) == 0x100_0000;
    assert Pow256(5) == 0x100_0000_0000;
    assert Pow256(7) == 0x100_0000_0000_0000;
  }

  lemma {:induction false} Pow256Grows(a: nat, b: nat)
    requires a <= b
    ensures Pow256(a) <= Pow256(b)
    decreases b
  {
    if a < b {
      Pow256Grows(a, b - 1);
    }
  }

  lemma FillNone(m: seq<byte>, s: nat, b: byte)
    requires s <= |m|
    ensures Splice(m, s, Repeated(b, 0)) == m
  {
  }

  lemma FillMore(m: seq<byte>, s: nat, b: byte, done: nat, more: nat)
    requires s + done + more <= |m|
    ensures Splice(Splice(m, s, Repeated(b, done)), s + done, Repeated(b, more)) == Splice(m, s, Repeated(b, done + more))
  {
  }

  method StoreOctet(mem: array<byte>, at: nat, b: byte)
    requires at < mem.Length
    modifies mem
    ensures mem[..] == Splice(old(mem[..]), at, Repeated(b, 1))
  {
    mem[at] := b;
  }

  /** The word loop of `memset`. */
  method FillWords(mem: array<byte>, s: nat, c: int, count: nat) returns (done: nat)
    requires s + count <= mem.Length
    modifies mem
    ensures done <= count && mem[..] == Splice(old(mem[..]), s, Repeated(c % 256, done))
  {
    hide Splice, OctetsOf, Repeated, WordOf;
    ghost var was := mem[..];
    FillNone(was, s, c % 256);
    done := 0;
    var cl := FillWord(c);
    LoadThenStore(Repeated(c % 256, WORD));
    while count - done >= WORD
      invariant done <= count && mem[..] == Splice(was, s, Repeated(c % 256, done))
    {
      FillMore(was, s, c % 256, done, WORD);
      StoreWord(mem, s + done, cl);
      done := done + WORD;
    }
  }

  /** `memset`: an area full of the low octet of `c`. */
  method Memset(mem: array<byte>, s: nat, c: int, count: nat)
    requires s + count <= mem.Length
    modifies mem
    ensures mem[..] == Splice(old(mem[..]), s, Repeated(c % 256, count))
  {
    hide Splice, Repeated;
    ghost var was := mem[..];
    var done: nat := 0;
    FillNone(was, s, c % 256);
    if s % WORD == 0 {
      done := FillWords(mem, s, c, count);
    }
    while done < count
      invariant done <= count && mem[..] == Splice(was, s, Repeated(c % 256, done))
    {
      FillMore(was, s, c % 256, done, 1);
      StoreOctet(mem, s + done, c % 256);
      done := done + 1;
    }
  }
}
