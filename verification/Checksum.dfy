/** The Internet checksum of RFC 1071 as net/checksum.c computes and combines it. */
module Checksum {
  import opened Bytes

  /** One's complement addition of 16-bit words: a carry out of the top comes back in at the bottom. */
  function OnesAdd(x: u16, y: u16): (z: u16) {
    if x + y > 0xffff then x + y - 0xffff else x + y
  }

  /** The one's complement sum of the 16-bit words of `s`, an odd last byte padded with zero. */
  function OnesSum(s: seq<byte>): u16 {
    if |s| == 0 then 0
    else if |s| == 1 then s[0]
    else OnesAdd(Le16(s, 0), OnesSum(s[2..]))
  }

  function Cksum(s: seq<byte>): u16 {
    0xffff - OnesSum(s)
  }

  /** The same words added without any carry coming round. */
  function WordSum(s: seq<byte>): nat {
    if |s| == 0 then 0
    else if |s| == 1 then s[0]
    else Le16(s, 0) + WordSum(s[2..])
  }

  /** The one's complement value that an unbounded sum stands for; zero only for zero. */
  function Canon(n: nat): (v: u16) {
    if n == 0 then 0 else (n - 1) % 0xffff + 1
  }

  lemma CanonUnique(n: nat, v: int, k: int)
    requires 0 <= v <= 0xffff && n == v + 0xffff * k && (v == 0 <==> n == 0)
    ensures Canon(n) == v
  {
  }

  lemma CanonQuotient(n: nat) returns (k: nat)
    ensures n == Canon(n) + 0xffff * k
  {
    k := if n == 0 then 0 else (n - 1) / 0xffff;
  }

  lemma CanonAdd(x: nat, y: nat)
    ensures OnesAdd(Canon(x), Canon(y)) == Canon(x + y)
  {
    var j := CanonQuotient(x);
    var k := CanonQuotient(y);
    var v := OnesAdd(Canon(x), Canon(y));
    CanonUnique(x + y, v, if Canon(x) + Canon(y) > 0xffff then j + k + 1 else j + k);
  }

  lemma CanonWord(w: u16)
    ensures Canon(w) == w
  {
    CanonUnique(w, w, 0);
  }

  lemma {:induction false} OnesSumIsCanon(s: seq<byte>)
    ensures OnesSum(s) == Canon(WordSum(s))
  {
    hide Canon, OnesAdd;
    CanonWord(0);
    if |s| == 1 {
      CanonWord(s[0]);
    } else if |s| > 1 {
      OnesSumIsCanon(s[2..]);
      CanonWord(Le16(s, 0));
      CanonAdd(Le16(s, 0), WordSum(s[2..]));
    }
  }

  /** Two folds bring any sum an `int` can hold down to its one's complement value. */
  lemma TwoFoldsSuffice(n: nat)
    requires n < 0x8000_0000
    ensures var once := n / 0x1_0000 + n % 0x1_0000; (once + once / 0x1_0000) % 0x1_0000 == Canon(n)
  {
    var once := n / 0x1_0000 + n % 0x1_0000;
    CanonUnique(n, (once + once / 0x1_0000) % 0x1_0000, n / 0x1_0000 + once / 0x1_0000);
  }

  /** The sum of up to 65536 bytes fits in an `int`. */
  lemma {:induction false} WordSumFits(s: seq<byte>)
    ensures WordSum(s) <= 0xffff * ((|s| + 1) / 2)
    ensures |s| <= 0x1_0000 ==> WordSum(s) < 0x8000_0000
  {
    if |s| > 1 {
      WordSumFits(s[2..]);
    }
  }

  /** `compute_ip_checksum`: never overflows its `int` on a buffer of up to 65536 bytes. */
  method ComputeIpChecksum(b: seq<byte>) returns (r: u16)
    requires |b| <= 0x1_0000
    ensures r == Cksum(b)
  {
    var sum, i := 0, 0;
    while |b| - i > 1
      invariant i <= |b| && i % 2 == 0
      invariant 0 <= sum <= 0xffff * (i / 2)
      invariant sum + WordSum(b[i..]) == WordSum(b)
    {
      assert b[i..][2..] == b[i + 2..];
      sum := sum + Le16(b, i);
      i := i + 2;
    }
    if |b| - i == 1 {
      sum := sum + b[i] as int;
    }
    assert 0 <= sum == WordSum(b) < 0x8000_0000;
    TwoFoldsSuffice(sum);
    OnesSumIsCanon(b);
    sum := sum / 0x1_0000 + sum % 0x1_0000;
    sum := sum + sum / 0x1_0000;
    r := 0xffff - sum % 0x1_0000;
  }

  function Swap(v: u16): u16 {
    v / 0x100 + 0x100 * (v % 0x100)
  }

  /** `add_ip_checksums`: the checksum of a whole from those of two parts, the second `offset` bytes in. */
  function AddIpChecksums(offset: nat, sum: nat, new_: nat): u16 {
    var s := 0xffff - sum % 0x1_0000;
    var n := 0xffff - new_ % 0x1_0000;
    var m := if offset % 2 == 1 then Swap(n) else n;
    var c := if s + m > 0xffff then s + m - 0xffff else s + m;
    0xffff - c
  }

  /** The bytes at even positions, and those at odd positions, added up. */
  function EvenSum(s: seq<byte>): nat {
    if s == [] then 0 else s[0] + OddSum(s[1..])
  }

  function OddSum(s: seq<byte>): nat {
    if s == [] then 0 else EvenSum(s[1..])
  }

  lemma {:induction false} WordSumByParity(s: seq<byte>)
    ensures WordSum(s) == EvenSum(s) + 0x100 * OddSum(s)
  {
    if |s| > 1 {
      assert s[1..][1..] == s[2..];
      WordSumByParity(s[2..]);
    }
  }

  lemma {:induction false} ParityConcat(a: seq<byte>, b: seq<byte>)
    ensures EvenSum(a + b) == EvenSum(a) + if |a| % 2 == 0 then EvenSum(b) else OddSum(b)
    ensures OddSum(a + b) == OddSum(a) + if |a| % 2 == 0 then OddSum(b) else EvenSum(b)
  {
    if a == [] {
      assert a + b == b;
    } else {
      assert (a + b)[1..] == a[1..] + b;
      ParityConcat(a[1..], b);
    }
  }

  /** Swapping the bytes of a one's complement sum sums the other parity. */
  lemma SwapCanon(e: nat, o: nat)
    ensures Swap(Canon(e + 0x100 * o)) == Canon(o + 0x100 * e)
  {
    var v := Canon(e + 0x100 * o);
    var k := CanonQuotient(e + 0x100 * o);
    assert Swap(v) == 0x100 * v - 0xffff * (v / 0x100);
    CanonUnique(o + 0x100 * e, Swap(v), 0x100 * k + v / 0x100 - o);
  }

  lemma AddIsOnesAdd(offset: nat, x: u16, y: u16)
    ensures AddIpChecksums(offset, 0xffff - x, 0xffff - y) == 0xffff - OnesAdd(x, if offset % 2 == 1 then Swap(y) else y)
  {
    hide Swap;
    assert (0xffff - x) % 0x1_0000 == 0xffff - x;
    assert (0xffff - y) % 0x1_0000 == 0xffff - y;
  }

  lemma WordSumConcat(a: seq<byte>, b: seq<byte>)
    ensures WordSum(a + b) == WordSum(a) + if |a| % 2 == 1 then OddSum(b) + 0x100 * EvenSum(b) else WordSum(b)
  {
    WordSumByParity(a);
    WordSumByParity(b);
    WordSumByParity(a + b);
    ParityConcat(a, b);
  }

  lemma CanonConcat(w: nat, e: nat, o: nat, odd: bool)
    ensures Canon(w + if odd then o + 0x100 * e else e + 0x100 * o)
            == OnesAdd(Canon(w), if odd then Swap(Canon(e + 0x100 * o)) else Canon(e + 0x100 * o))
  {
    SwapCanon(e, o);
    CanonAdd(w, if odd then o + 0x100 * e else e + 0x100 * o);
  }

  /** The sum of a whole is that of its first part and that of its second, swapped if it begins at an odd byte. */
  lemma OnesSumConcat(a: seq<byte>, b: seq<byte>)
    ensures OnesSum(a + b) == OnesAdd(OnesSum(a), if |a| % 2 == 1 then Swap(OnesSum(b)) else OnesSum(b))
  {
    var whole, x, y, w, v := OnesSum(a + b), OnesSum(a), OnesSum(b), WordSum(a), WordSum(b);
    assert whole == Canon(WordSum(a + b)) && x == Canon(w) && y == Canon(v) by {
      OnesSumIsCanon(a);
      OnesSumIsCanon(b);
      OnesSumIsCanon(a + b);
    }
    var e, o := EvenSum(b), OddSum(b);
    assert v == e + 0x100 * o by { WordSumByParity(b); }
    WordSumConcat(a, b);
    CanonConcat(w, e, o, |a| % 2 == 1);
  }

  /** The checksums of two parts combine to that of the whole, at any offset, exactly. */
  lemma AddIsConcat(a: seq<byte>, b: seq<byte>)
    ensures AddIpChecksums(|a|, Cksum(a), Cksum(b)) == Cksum(a + b)
  {
    OnesSumConcat(a, b);
    AddIsOnesAdd(|a|, OnesSum(a), OnesSum(b));
  }

  /** `ip_checksum_ok` */
  predicate IpChecksumOk(s: seq<byte>) {
    Cksum(s) - Cksum(s) % 2 == 0
  }

  /** The exact acceptance set: the mask 0xfffe lets one more value through than RFC 1071 does. */
  lemma AcceptedExactly(s: seq<byte>)
    ensures IpChecksumOk(s) <==> OnesSum(s) == 0xffff || OnesSum(s) == 0xfffe
  {
  }

  /** Filling in a zero word at an even position adds that word to the sum. */
  lemma {:induction false} FillWord(s: seq<byte>, at: nat, w: u16)
    requires at % 2 == 0 && at + 2 <= |s| && s[at] == s[at + 1] == 0
    ensures WordSum(Splice(s, at, LeBytes(w))) == WordSum(s) + w
  {
    var t := Splice(s, at, LeBytes(w));
    if at == 0 {
      assert t[2..] == s[2..];
    } else {
      assert t[2..] == Splice(s[2..], at - 2, LeBytes(w));
      FillWord(s[2..], at - 2, w);
    }
  }

  lemma FilledSum(s: seq<byte>, at: nat, w: u16)
    requires at % 2 == 0 && at + 2 <= |s| && s[at] == s[at + 1] == 0
    ensures OnesSum(Splice(s, at, LeBytes(w))) == OnesAdd(OnesSum(s), w)
  {
    FillWord(s, at, w);
    OnesSumIsCanon(s);
    OnesSumIsCanon(Splice(s, at, LeBytes(w)));
    CanonAdd(WordSum(s), w);
    CanonUnique(w, w, 0);
  }

  /** A buffer sealed with its own checksum in a zeroed word has checksum zero, so it is accepted. */
  lemma {:induction false} SealedIsOk(s: seq<byte>, at: nat)
    requires at % 2 == 0 && at + 2 <= |s| && s[at] == s[at + 1] == 0
    ensures var t := Splice(s, at, LeBytes(Cksum(s))); Cksum(t) == 0 && IpChecksumOk(t)
  {
    FilledSum(s, at, Cksum(s));
  }

  /**
   The checksum fields that are accepted in a buffer: the right one and the one below it (and the other
   spellings of zero, when the right one is 0 or 1).
   */
  lemma {:induction false} AcceptedFields(s: seq<byte>, at: nat, w: u16)
    requires at % 2 == 0 && at + 2 <= |s| && s[at] == s[at + 1] == 0
    ensures var c := Cksum(s);
         IpChecksumOk(Splice(s, at, LeBytes(w)))
         <==> w == c || w == c - 1 || (c <= 1 && w == 0xffff) || (c == 0 && w == 0xfffe)
  {
    FilledSum(s, at, w);
  }

  /** So every buffer with a checksum above 0 can carry a wrong one that is accepted. */
  lemma {:induction false} AcceptsOneTooMany(s: seq<byte>, at: nat)
    requires at % 2 == 0 && at + 2 <= |s| && s[at] == s[at + 1] == 0 && Cksum(s) > 0
    ensures var t := Splice(s, at, LeBytes(Cksum(s) - 1)); Cksum(t) == 1 && IpChecksumOk(t)
  {
    FilledSum(s, at, Cksum(s) - 1);
  }

  function NetWord(hi: byte, lo: byte): u16 {
    hi as int * 256 + lo as int
  }

  /** The one's complement sum of the words of `s` as RFC 1071 defines it, in network order. */
  function NetSum(s: seq<byte>): u16 {
    if |s| == 0 then 0
    else if |s| == 1 then NetWord(s[0], 0)
    else OnesAdd(NetWord(s[0], s[1]), NetSum(s[2..]))
  }

  /** Those words added without any carry coming round. */
  function NetWords(s: seq<byte>): nat {
    if |s| == 0 then 0
    else if |s| == 1 then NetWord(s[0], 0)
    else NetWord(s[0], s[1]) + NetWords(s[2..])
  }

  lemma {:induction false} NetSumIsCanon(s: seq<byte>)
    ensures NetSum(s) == Canon(NetWords(s))
  {
    hide Canon, OnesAdd, NetWord;
    CanonWord(0);
    if |s| == 1 {
      CanonWord(NetWord(s[0], 0));
    } else if |s| > 1 {
      NetSumIsCanon(s[2..]);
      CanonWord(NetWord(s[0], s[1]));
      CanonAdd(NetWord(s[0], s[1]), NetWords(s[2..]));
    }
  }

  lemma {:induction false} NetWordsByParity(s: seq<byte>)
    ensures NetWords(s) == OddSum(s) + 0x100 * EvenSum(s)
  {
    if |s| > 1 {
      assert s[1..][1..] == s[2..];
      NetWordsByParity(s[2..]);
    }
  }

  /**
   The order of octets in a word does not matter to the sum but for its own: the checksum that a
   little-endian machine stores is, octet by octet, the complement of the sum in network order.
   */
  lemma {:induction false} StoredInNetworkOrder(s: seq<byte>)
    ensures var c, n := Cksum(s), 0xffff - NetSum(s); [c % 256, c / 256] == [n / 256, n % 256]
  {
    assert NetSum(s) == Swap(OnesSum(s)) by {
      OnesSumIsCanon(s);
      WordSumByParity(s);
      NetSumIsCanon(s);
      NetWordsByParity(s);
      SwapCanon(EvenSum(s), OddSum(s));
    }
    hide NetSum, OnesSum;
    SwapStored(OnesSum(s));
  }

  lemma SwapStored(v: u16)
    ensures var c, n := 0xffff - v, 0xffff - Swap(v); c % 256 == n / 256 && c / 256 == n % 256
  {
    var a, b := v / 256, v % 256;
    TwoOctets(255 - a, 255 - b);
    TwoOctets(255 - b, 255 - a);
    assert 0xffff - v == 256 * (255 - a) + (255 - b) && 0xffff - Swap(v) == 256 * (255 - b) + (255 - a);
  }

  lemma TwoOctets(hi: byte, lo: byte)
    ensures (256 * hi + lo) / 256 == hi && (256 * hi + lo) % 256 == lo
  {
  }

  lemma NextNetWord(s: seq<byte>, i: nat)
    requires i + 2 <= |s|
    ensures NetSum(s[i..]) == OnesAdd(NetWord(s[i], s[i + 1]), NetSum(s[i + 2..]))
  {
    assert s[i..][2..] == s[i + 2..];
  }

  /** The example of section 3 of RFC 1071. */
  lemma {:induction false} Rfc1071Example()
    ensures NetSum([0x00, 0x01, 0xf2, 0x03, 0xf4, 0xf5, 0xf6, 0xf7]) == 0xddf2
  {
    var s: seq<byte> := [0x00, 0x01, 0xf2, 0x03, 0xf4, 0xf5, 0xf6, 0xf7];
    NextNetWord(s, 0);
    NextNetWord(s, 2);
    NextNetWord(s, 4);
    NextNetWord(s, 6);
    assert s[0..] == s && s[8..] == [] && NetSum([]) == 0;
    hide NetSum;
  }

  function Concat(parts: seq<seq<byte>>): seq<byte> {
    if parts == [] then [] else Concat(parts[..|parts| - 1]) + parts[|parts| - 1]
  }

  /** The checksum of a buffer read piece by piece, as `add_ip_checksums` is meant to be used. */
  method ChecksumOfParts(parts: seq<seq<byte>>) returns (sum: u16)
    requires forall i :: 0 <= i < |parts| ==> |parts[i]| <= 0x1_0000
    ensures sum == Cksum(Concat(parts))
  {
    sum := 0xffff;
    var n, offset := 0, 0;
    while n < |parts|
      invariant n <= |parts| && offset == |Concat(parts[..n])|
      invariant sum == Cksum(Concat(parts[..n]))
    {
      var c := ComputeIpChecksum(parts[n]);
      AddIsConcat(Concat(parts[..n]), parts[n]);
      assert parts[..n + 1][..n] == parts[..n];
      sum := AddIpChecksums(offset, sum, c);
      offset := offset + |parts[n]|;
      n := n + 1;
    }
    assert parts[..n] == parts;
  }
}
