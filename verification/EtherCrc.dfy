/**
 `ether_crc` of net/eth_legacy.c against the shift register of clause 3.2.9 of IEEE 802.3: the
 register shifts towards its high-order bit, starts with all ones, and takes each octet low-order
 bit first.
 */
module EtherCrc {

  /** The generator polynomial, and the same with its bits in reverse. */
  const CRCPOLY_BE: bv32 := 0x04C11DB7
  const CRCPOLY_LE: bv32 := 0xEDB88320

  function Top(x: bv32): bool {
    x >> 31 == 1
  }

  function Up(x: bv32): bv32 {
    x << 1
  }

  function Mix(x: bv32, y: bv32): bv32 {
    x ^ y
  }

  /** The register of the standard takes one bit. */
  function Shift(r: bv32, bit: bool): bv32 {
    Mix(Up(r), if Top(r) != bit then CRCPOLY_BE else 0)
  }

  function Feed(r: bv32, bits: seq<bool>): bv32
    decreases bits
  {
    if bits == [] then r else Feed(Shift(r, bits[0]), bits[1..])
  }

  /** The low `n` bits of `x`, low-order bit first. */
  function LowBits(x: bv32, n: nat): seq<bool>
    decreases n
  {
    if n == 0 then [] else [x & 1 == 1] + LowBits(x >> 1, n - 1)
  }

  /** The bits of a frame as they go on the wire. */
  function WireBits(s: seq<bv8>): seq<bool> {
    if s == [] then [] else LowBits(s[0] as bv32, 8) + WireBits(s[1..])
  }

  /** The register after a whole frame. */
  function RegisterAfter(s: seq<bv8>): bv32 {
    Feed(0xFFFF_FFFF, WireBits(s))
  }

  /** The five swap lines at the end of `ether_crc`. */
  function Reverse32(crc: bv32): bv32 {
    var a := (crc >> 16) | (crc << 16);
    var b := ((a >> 8) & 0x00ff00ff) | ((a << 8) & 0xff00ff00);
    var c := ((b >> 4) & 0x0f0f0f0f) | ((b << 4) & 0xf0f0f0f0);
    var d := ((c >> 2) & 0x33333333) | ((c << 2) & 0xcccccccc);
    ((d >> 1) & 0x55555555) | ((d << 1) & 0xaaaaaaaa)
  }

  /** One pass of the inner loop. */
  function ShiftLe(crc: bv32): bv32 {
    (crc >> 1) ^ (if crc & 1 == 1 then CRCPOLY_LE else 0)
  }

  /** Reversal carries one pass of the inner loop to one shift of the standard's register. */
  lemma ReverseShift(f: bv32, c: bv32)
    ensures Reverse32(ShiftLe(f ^ c) ^ (c >> 1)) == Shift(Reverse32(f), c & 1 == 1)
  {
  }

  lemma ReverseBit(x: bv32, i: bv32)
    requires i < 32
    ensures (Reverse32(x) >> i) & 1 == (x >> (31 - i)) & 1
  {
    if i & 1 == 0 {
      if i & 2 == 0 {
      } else {
      }
    } else {
      if i & 2 == 0 {
      } else {
      }
    }
  }

  lemma {:induction false} FeedConcat(r: bv32, a: seq<bool>, b: seq<bool>)
    ensures Feed(r, a + b) == Feed(Feed(r, a), b)
    decreases a
  {
    if a == [] {
      assert a + b == b;
    } else {
      assert (a + b)[1..] == a[1..] + b;
      FeedConcat(Shift(r, a[0]), a[1..], b);
    }
  }

  lemma FeedCons(r: bv32, bit: bool, bits: seq<bool>)
    ensures Feed(r, [bit] + bits) == Feed(Shift(r, bit), bits)
  {
    assert ([bit] + bits)[1..] == bits;
  }

  /** Only the low `n` bits of `x` can be set. */
  ghost predicate Within(x: bv32, n: nat)
    decreases n
  {
    if n == 0 then x == 0 else Within(x >> 1, n - 1)
  }

  lemma OctetWithin(x: bv32)
    requires x <= 0xff
    ensures Within(x, 8)
  {
    var x4 := x >> 1 >> 1 >> 1 >> 1;
    assert x4 >> 1 >> 1 >> 1 >> 1 == 0;
    assert Within(x4, 4) by { assert Within(x4 >> 1 >> 1, 2); }
    assert Within(x >> 1 >> 1, 6);
  }

  /** The inner loop run `n` times. */
  function PassesLe(crc: bv32, n: nat): bv32
    decreases n
  {
    if n == 0 then crc else PassesLe(ShiftLe(crc), n - 1)
  }

  /** The register `f` after one pass, with only the bits taken so far; `c` holds those still to come. */
  function Next(f: bv32, c: bv32): bv32 {
    ShiftLe(f ^ c) ^ (c >> 1)
  }

  /** `rev` carries one pass to one shift that takes the first of the bits still to come. */
  ghost predicate Simulates(rev: bv32 -> bv32, f: bv32, c: bv32) {
    rev(Next(f, c)) == Shift(rev(f), c & 1 == 1)
  }

  lemma PassStep(f: bv32, c: bv32, n: nat)
    requires n > 0
    ensures PassesLe(f ^ c, n) == PassesLe(Next(f, c) ^ (c >> 1), n - 1)
  {
    XorBack(ShiftLe(f ^ c), c >> 1);
  }

  lemma FeedStep(rev: bv32 -> bv32, f: bv32, c: bv32, n: nat)
    requires n > 0 && Simulates(rev, f, c)
    ensures Feed(rev(Next(f, c)), LowBits(c >> 1, n - 1)) == Feed(rev(f), LowBits(c, n))
  {
    FeedCons(rev(f), c & 1 == 1, LowBits(c >> 1, n - 1));
  }

  /**
   Passes over a register into which an octet has been added at once are shifts of the standard's
   register, which takes the octet bit by bit.
   */
  lemma {:induction false} PassesSimulate(rev: bv32 -> bv32, f: bv32, c: bv32, n: nat)
    requires forall f, c :: Simulates(rev, f, c)
    requires Within(c, n)
    ensures rev(PassesLe(f ^ c, n)) == Feed(rev(f), LowBits(c, n))
    decreases n
  {
    if n > 0 {
      PassStep(f, c, n);
      PassesSimulate(rev, Next(f, c), c >> 1, n - 1);
      assert Simulates(rev, f, c);
      FeedStep(rev, f, c, n);
    } else {
      assert f ^ c == f;
    }
  }

  lemma XorBack(x: bv32, y: bv32)
    ensures (x ^ y) ^ y == x
  {
  }

  /** The register the loops of `ether_crc` leave when they begin with `crc`. */
  function RegisterLe(crc: bv32, s: seq<bv8>): bv32
    decreases s
  {
    if s == [] then crc else RegisterLe(PassesLe(crc ^ (s[0] as bv32), 8), s[1..])
  }

  lemma ReverseSimulates()
    ensures forall f, c :: Simulates(Reverse32, f, c)
  {
    forall f, c
      ensures Simulates(Reverse32, f, c)
    {
      ReverseShift(f, c);
      hide Reverse32, ShiftLe, Shift;
    }
  }

  /** The register before it is reversed is the standard's register, reversed. */
  lemma {:induction false} RegisterReversed(crc: bv32, s: seq<bv8>)
    ensures Reverse32(RegisterLe(crc, s)) == Feed(Reverse32(crc), WireBits(s))
    decreases s
  {
    hide Reverse32, Simulates, PassesLe, LowBits, Within;
    if s != [] {
      var octet := s[0] as bv32;
      ReverseSimulates();
      OctetWithin(octet);
      PassesSimulate(Reverse32, crc, octet, 8);
      RegisterReversed(PassesLe(crc ^ octet, 8), s[1..]);
      FeedConcat(Reverse32(crc), LowBits(octet, 8), WireBits(s[1..]));
    }
  }

  /** The inner loop, after the octet has been added to the register. */
  method TakeOctet(crc0: bv32, octet: bv8) returns (crc: bv32)
    ensures TookOctet(crc0, octet, crc)
  {
    crc := crc0 ^ (octet as bv32);
    ghost var was := crc;
    var i := 0;
    while i < 8
      invariant i <= 8 && PassesLe(crc, 8 - i) == PassesLe(was, 8)
    {
      crc := ShiftLe(crc);
      i := i + 1;
    }
  }

  ghost predicate TookOctet(crc0: bv32, octet: bv8, crc: bv32) {
    crc == PassesLe(crc0 ^ (octet as bv32), 8)
  }

  lemma RegisterStep(crc0: bv32, crc: bv32, s: seq<bv8>)
    requires s != [] && TookOctet(crc0, s[0], crc)
    ensures RegisterLe(crc0, s) == RegisterLe(crc, s[1..])
  {
  }

  /** The loops of `ether_crc`. */
  method TakeFrame(p: seq<bv8>) returns (crc: bv32)
    ensures crc == RegisterLe(0xFFFF_FFFF, p)
  {
    crc := 0xFFFF_FFFF;
    var n := 0;
    while n < |p|
      invariant n <= |p| && RegisterLe(crc, p[n..]) == RegisterLe(0xFFFF_FFFF, p)
    {
      ghost var was := crc;
      crc := TakeOctet(crc, p[n]);
      RegisterStep(was, crc, p[n..]);
      assert p[n..][1..] == p[n + 1..];
      n := n + 1;
    }
  }

  /** `ether_crc` is the standard's register after the frame. */
  method EtherCrc(p: seq<bv8>) returns (crc: bv32)
    ensures crc == RegisterAfter(p)
  {
    crc := TakeFrame(p);
    RegisterReversed(0xFFFF_FFFF, p);
    assert Reverse32(0xFFFF_FFFF) == 0xFFFF_FFFF;
    crc := Reverse32(crc);
  }

  // The check sequence

  /** The check sequence of a frame as it is sent: `n` bits of the register, highest first, complemented. */
  function CheckBits(r: bv32, n: nat): seq<bool>
    decreases n
  {
    if n == 0 then [] else [!Top(r)] + CheckBits(Up(r), n - 1)
  }

  function Ones(n: nat): seq<bool>
    decreases n
  {
    if n == 0 then [] else [true] + Ones(n - 1)
  }

  function ShiftedOut(x: bv32, n: nat): bv32
    decreases n
  {
    if n == 0 then x else ShiftedOut(Up(x), n - 1)
  }

  lemma TopOfMix(x: bv32, c: bv32)
    ensures Top(Mix(x, c)) <==> Top(x) != Top(c)
  {
  }

  lemma UpOfMix(x: bv32, c: bv32, d: bv32)
    ensures Mix(Up(Mix(x, c)), d) == Mix(Up(x), Mix(Up(c), d))
  {
  }

  /** A complemented bit of the register itself leaves of the register only what other bits have made of it. */
  lemma OwnBit(x: bv32, c: bv32)
    ensures Shift(Mix(x, c), !Top(x)) == Mix(Up(x), Shift(c, true))
  {
    TopOfMix(x, c);
    UpOfMix(x, c, if Top(c) then 0 else CRCPOLY_BE);
    hide Top, Up, Mix;
  }

  lemma FeedOne(c: bv32, d: bv32, n: nat)
    requires n > 0 && d == Shift(c, true)
    ensures Feed(c, Ones(n)) == Feed(d, Ones(n - 1))
  {
    hide Shift;
    FeedCons(c, true, Ones(n - 1));
  }

  lemma {:induction false} FeedCheckBits(x: bv32, c: bv32, n: nat)
    ensures Feed(Mix(x, c), CheckBits(x, n)) == Mix(ShiftedOut(x, n), Feed(c, Ones(n)))
    decreases n
  {
    hide Shift, Top, Up, Mix;
    if n > 0 {
      OwnBit(x, c);
      FeedCons(Mix(x, c), !Top(x), CheckBits(Up(x), n - 1));
      FeedOne(c, Shift(c, true), n);
      FeedCheckBits(Up(x), Shift(c, true), n - 1);
    }
  }

  function Up8(x: bv32): bv32 {
    x << 8
  }

  lemma EightUp(x: bv32)
    ensures Up(Up(Up(Up(Up(Up(Up(Up(x)))))))) == Up8(x)
  {
  }

  lemma EightOut(x: bv32, n: nat)
    requires n >= 8
    ensures ShiftedOut(x, n) == ShiftedOut(Up8(x), n - 8)
  {
    EightUp(x);
    hide Up, Up8;
    var y := Up(Up(Up(Up(x))));
    assert ShiftedOut(x, n) == ShiftedOut(Up(Up(x)), n - 2) == ShiftedOut(y, n - 4);
    assert ShiftedOut(y, n - 4) == ShiftedOut(Up(Up(y)), n - 6) == ShiftedOut(Up(Up(Up(Up(y)))), n - 8);
  }

  lemma FourOctetsUp(x: bv32)
    ensures Up8(Up8(Up8(Up8(x)))) == 0
  {
  }

  lemma AllOut(x: bv32)
    ensures ShiftedOut(x, 32) == 0
  {
    FourOctetsUp(x);
    hide Up, Up8;
    EightOut(x, 32);
    EightOut(Up8(x), 24);
    EightOut(Up8(Up8(x)), 16);
    EightOut(Up8(Up8(Up8(x))), 8);
    assert ShiftedOut(0, 0) == 0;
  }

  lemma Ones32()
    ensures Feed(0, Ones(32)) == Feed(0xb1f740b4, Ones(24))
  {
    hide Feed, Ones;
    FeedOne(0, 0x4c11db7, 32);
    FeedOne(0x4c11db7, 0xd4326d9, 31);
    FeedOne(0xd4326d9, 0x1e475005, 30);
    FeedOne(0x1e475005, 0x384fbdbd, 29);
    FeedOne(0x384fbdbd, 0x745e66cd, 28);
    FeedOne(0x745e66cd, 0xec7dd02d, 27);
    FeedOne(0xec7dd02d, 0xd8fba05a, 26);
    FeedOne(0xd8fba05a, 0xb1f740b4, 25);
  }

  lemma Ones24()
    ensures Feed(0xb1f740b4, Ones(24)) == Feed(0xff48647d, Ones(16))
  {
    hide Feed, Ones;
    FeedOne(0xb1f740b4, 0x63ee8168, 24);
    FeedOne(0x63ee8168, 0xc31c1f67, 23);
    FeedOne(0xc31c1f67, 0x86383ece, 22);
    FeedOne(0x86383ece, 0xc707d9c, 21);
    FeedOne(0xc707d9c, 0x1c21e68f, 20);
    FeedOne(0x1c21e68f, 0x3c82d0a9, 19);
    FeedOne(0x3c82d0a9, 0x7dc4bce5, 18);
    FeedOne(0x7dc4bce5, 0xff48647d, 17);
  }

  lemma Ones16()
    ensures Feed(0xff48647d, Ones(16)) == Feed(0x48647d00, Ones(8))
  {
    hide Feed, Ones;
    FeedOne(0xff48647d, 0xfe90c8fa, 16);
    FeedOne(0xfe90c8fa, 0xfd2191f4, 15);
    FeedOne(0xfd2191f4, 0xfa4323e8, 14);
    FeedOne(0xfa4323e8, 0xf48647d0, 13);
    FeedOne(0xf48647d0, 0xe90c8fa0, 12);
    FeedOne(0xe90c8fa0, 0xd2191f40, 11);
    FeedOne(0xd2191f40, 0xa4323e80, 10);
    FeedOne(0xa4323e80, 0x48647d00, 9);
  }

  lemma Ones8()
    ensures Feed(0x48647d00, Ones(8)) == Feed(0xc704dd7b, Ones(0))
  {
    hide Feed, Ones;
    FeedOne(0x48647d00, 0x9409e7b7, 8);
    FeedOne(0x9409e7b7, 0x2813cf6e, 7);
    FeedOne(0x2813cf6e, 0x54e6836b, 6);
    FeedOne(0x54e6836b, 0xad0c1b61, 5);
    FeedOne(0xad0c1b61, 0x5a1836c2, 4);
    FeedOne(0x5a1836c2, 0xb0f17033, 3);
    FeedOne(0xb0f17033, 0x61e2e066, 2);
    FeedOne(0x61e2e066, 0xc704dd7b, 1);
  }

  /** What 32 ones make of an empty register. */
  lemma OnesLeave()
    ensures Feed(0, Ones(32)) == 0xC704DD7B
  {
    Ones32();
    Ones24();
    Ones16();
    Ones8();
    assert Feed(0xC704DD7B, Ones(0)) == 0xC704DD7B;
  }

  /**
   The register of a receiver, after any frame and its check sequence, holds the one value that the
   standard names, which depends on nothing but the polynomial.
   */
  lemma Residue(s: seq<bv8>)
    ensures var r := RegisterAfter(s); Feed(0xFFFF_FFFF, WireBits(s) + CheckBits(r, 32)) == 0xC704DD7B
  {
    hide Shift;
    var r := RegisterAfter(s);
    FeedConcat(0xFFFF_FFFF, WireBits(s), CheckBits(r, 32));
    FeedCheckBits(r, 0, 32);
    assert Mix(r, 0) == r;
    AllOut(r);
    OnesLeave();
  }

  lemma FeedLow(r: bv32, x: bv32, n: nat, d: bv32, y: bv32)
    requires n > 0 && d == Shift(r, x & 1 == 1) && y == x >> 1
    ensures Feed(r, LowBits(x, n)) == Feed(d, LowBits(y, n - 1))
  {
    FeedCons(r, x & 1 == 1, LowBits(x >> 1, n - 1));
    hide Shift;
  }

  lemma ShiftsOfA()
    ensures Feed(0xFFFF_FFFF, LowBits(0x61, 8)) == 0x3d8212e8
  {
    assert Feed(0x3d8212e8, LowBits(0, 0)) == 0x3d8212e8;
    hide Feed, LowBits;
    FeedLow(0xffffffff, 0x61, 8, 0xfffffffe, 0x30);
    FeedLow(0xfffffffe, 0x30, 7, 0xfb3ee24b, 0x18);
    FeedLow(0xfb3ee24b, 0x18, 6, 0xf2bcd921, 0xc);
    FeedLow(0xf2bcd921, 0xc, 5, 0xe1b8aff5, 0x6);
    FeedLow(0xe1b8aff5, 0x6, 4, 0xc7b0425d, 0x3);
    FeedLow(0xc7b0425d, 0x3, 3, 0x8f6084ba, 0x1);
    FeedLow(0x8f6084ba, 0x1, 2, 0x1ec10974, 0x0);
    FeedLow(0x1ec10974, 0x0, 1, 0x3d8212e8, 0x0);
  }

  /** The known CRC-32 of the letter a is 0xE8B7BE43; its complement, in reverse, is what the register holds. */
  lemma CheckValue()
    ensures RegisterAfter([0x61]) == 0x3d8212e8
  {
    hide Feed, LowBits;
    ShiftsOfA();
    var s: seq<bv8> := [0x61];
    assert s[1..] == [] && WireBits([]) == [];
    assert LowBits(0x61, 8) + [] == LowBits(0x61, 8);
  }
}
