/** `utf16_to_utf8` of misc/vsnprintf.c, against the decoders of RFC 2781 and RFC 3629. */
module Utf {
  import opened Bytes
  import opened Options

  const QUESTION := 0x3F

  predicate IsHigh(u: nat) {
    0xD800 <= u <= 0xDBFF
  }

  predicate IsLow(u: nat) {
    0xDC00 <= u <= 0xDFFF
  }

  /** A code point that is not a surrogate. */
  predicate IsScalar(c: nat) {
    c < 0x11_0000 && !IsHigh(c) && !IsLow(c)
  }

  predicate AreScalars(cs: seq<nat>) {
    forall k {:trigger cs[k]} :: 0 <= k < |cs| ==> IsScalar(cs[k])
  }

  function Paired(high: u16, low: u16): (c: nat)
    requires IsHigh(high) && IsLow(low)
    ensures IsScalar(c) && c >= 0x1_0000
  {
    (high - 0xD800) * 0x400 + (low - 0xDC00) + 0x1_0000
  }

  // UTF-16, section 2.2 of RFC 2781

  function Decode16(u: seq<u16>): Option<seq<nat>> {
    if u == [] then Some([])
    else if IsLow(u[0]) then None
    else if !IsHigh(u[0]) then
      (match Decode16(u[1..]) case None => None case Some(cs) => Some([u[0]] + cs))
    else if |u| == 1 || !IsLow(u[1]) then None
    else
      match Decode16(u[2..]) case None => None case Some(cs) => Some([Paired(u[0], u[1])] + cs)
  }

  /** The units of a scalar value, as section 2.1 of RFC 2781 encodes it. */
  function UnitsOf(c: nat): (u: seq<u16>)
    requires IsScalar(c)
  {
    if c < 0x1_0000 then [c]
    else [0xD800 + (c - 0x1_0000) / 0x400, 0xDC00 + (c - 0x1_0000) % 0x400]
  }

  function Encode16(cs: seq<nat>): seq<u16>
    requires AreScalars(cs)
  {
    if cs == [] then [] else UnitsOf(cs[0]) + Encode16(cs[1..])
  }

  /** A pair stands for the scalar value it encodes. */
  lemma PairedUnits(c: nat)
    requires IsScalar(c) && c >= 0x1_0000
    ensures var u := UnitsOf(c); IsHigh(u[0]) && IsLow(u[1]) && Paired(u[0], u[1]) == c
  {
  }

  /** What is encoded decodes to itself. */
  lemma {:induction false} Encoded16Decodes(cs: seq<nat>)
    requires AreScalars(cs)
    ensures Decode16(Encode16(cs)) == Some(cs)
  {
    if cs != [] {
      var c, rest := cs[0], Encode16(cs[1..]);
      Encoded16Decodes(cs[1..]);
      if c >= 0x1_0000 {
        PairedUnits(c);
      }
      assert (UnitsOf(c) + rest)[|UnitsOf(c)|..] == rest;
      assert [c] + cs[1..] == cs;
    }
  }

  // UTF-8, sections 3 and 4 of RFC 3629

  function EncodeOne(c: nat): (b: seq<byte>)
    requires IsScalar(c)
    ensures 1 <= |b| <= if c < 0x1_0000 then 3 else 4
  {
    if c <= 0x7F then [c]
    else if c <= 0x7FF then [0xC0 + c / 0x40, 0x80 + c % 0x40]
    else if c < 0x1_0000 then [0xE0 + c / 0x1000, 0x80 + c / 0x40 % 0x40, 0x80 + c % 0x40]
    else [0xF0 + c / 0x4_0000, 0x80 + c / 0x1000 % 0x40, 0x80 + c / 0x40 % 0x40, 0x80 + c % 0x40]
  }

  function Encode8(cs: seq<nat>): seq<byte>
    requires AreScalars(cs)
  {
    if cs == [] then [] else EncodeOne(cs[0]) + Encode8(cs[1..])
  }

  predicate IsTail(b: byte) {
    0x80 <= b <= 0xBF
  }

  /** The six bits of a tail octet. */
  function TailBits(b: byte): nat
    requires IsTail(b)
  {
    b - 0x80
  }

  /** The bits of a first octet behind its mark. */
  function LeadBits(b: byte, mark: byte): nat
    requires mark <= b
  {
    b - mark
  }

  /** The first character of a byte string and how many octets it takes; none if it is malformed. */
  function DecodeOne(b: seq<byte>): (r: Option<(nat, nat)>)
    requires b != []
    ensures r.Some? ==> IsScalar(r.value.0) && 1 <= r.value.1 <= |b|
  {
    if b[0] < 0x80 then Some((b[0], 1))
    else if 0xC2 <= b[0] <= 0xDF then
      if |b| >= 2 && IsTail(b[1]) then Some((LeadBits(b[0], 0xC0) * 0x40 + TailBits(b[1]), 2)) else None
    else if 0xE0 <= b[0] <= 0xEF then
      if |b| >= 3 && IsTail(b[1]) && IsTail(b[2]) then
        var c := (LeadBits(b[0], 0xE0) * 0x40 + TailBits(b[1])) * 0x40 + TailBits(b[2]);
        if c >= 0x800 && IsScalar(c) then Some((c, 3)) else None
      else None
    else if 0xF0 <= b[0] <= 0xF4 then
      if |b| >= 4 && IsTail(b[1]) && IsTail(b[2]) && IsTail(b[3]) then
        var c := ((LeadBits(b[0], 0xF0) * 0x40 + TailBits(b[1])) * 0x40 + TailBits(b[2])) * 0x40 + TailBits(b[3]);
        if c >= 0x1_0000 && IsScalar(c) then Some((c, 4)) else None
      else None
    else None
  }

  function Decode8(b: seq<byte>): Option<seq<nat>>
    decreases |b|
  {
    if b == [] then Some([])
    else
      match DecodeOne(b)
      case None => None
      case Some((c, n)) =>
        match Decode8(b[n..]) case None => None case Some(cs) => Some([c] + cs)
  }

  lemma OneDecodes(c: nat, rest: seq<byte>)
    requires IsScalar(c)
    ensures DecodeOne(EncodeOne(c) + rest) == Some((c, |EncodeOne(c)|))
  {
    if c <= 0x7FF {
      ShortDecodes(c, rest);
    } else if c < 0x1_0000 {
      ThreeDecode(c, rest);
    } else {
      FourDecode(c, rest);
    }
  }

  lemma ShortDecodes(c: nat, rest: seq<byte>)
    requires c <= 0x7FF
    ensures DecodeOne(EncodeOne(c) + rest) == Some((c, |EncodeOne(c)|))
  {
    var b := EncodeOne(c) + rest;
    assert b[0] == EncodeOne(c)[0];
    assert c > 0x7F ==> b[1] == EncodeOne(c)[1];
  }

  lemma ThreeDecode(c: nat, rest: seq<byte>)
    requires IsScalar(c) && 0x7FF < c < 0x1_0000
    ensures DecodeOne(EncodeOne(c) + rest) == Some((c, |EncodeOne(c)|))
  {
    var b := EncodeOne(c) + rest;
    assert b[0] == EncodeOne(c)[0] && b[1] == EncodeOne(c)[1] && b[2] == EncodeOne(c)[2];
    ThreeOctets(c);
  }

  lemma FourDecode(c: nat, rest: seq<byte>)
    requires IsScalar(c) && c >= 0x1_0000
    ensures DecodeOne(EncodeOne(c) + rest) == Some((c, |EncodeOne(c)|))
  {
    var b := EncodeOne(c) + rest;
    assert b[0] == EncodeOne(c)[0] && b[1] == EncodeOne(c)[1] && b[2] == EncodeOne(c)[2] && b[3] == EncodeOne(c)[3];
    FourOctets(c);
  }

  lemma ThreeOctets(c: nat)
    requires c < 0x1_0000
    ensures c == (c / 0x1000 * 0x40 + c / 0x40 % 0x40) * 0x40 + c % 0x40
  {
    assert c / 0x1000 == c / 0x40 / 0x40;
  }

  lemma FourOctets(c: nat)
    ensures c == ((c / 0x4_0000 * 0x40 + c / 0x1000 % 0x40) * 0x40 + c / 0x40 % 0x40) * 0x40 + c % 0x40
  {
    assert c / 0x1000 == c / 0x40 / 0x40;
    assert c / 0x4_0000 == c / 0x1000 / 0x40;
  }

  /** What is encoded decodes to itself, and so is well-formed. */
  lemma {:induction false} EncodedDecodes(cs: seq<nat>)
    requires AreScalars(cs)
    ensures Decode8(Encode8(cs)) == Some(cs)
  {
    hide EncodeOne, DecodeOne;
    if cs != [] {
      var first, rest := EncodeOne(cs[0]), Encode8(cs[1..]);
      OneDecodes(cs[0], rest);
      assert (first + rest)[|first|..] == rest;
      EncodedDecodes(cs[1..]);
      assert [cs[0]] + cs[1..] == cs;
    }
  }

  // The transcoder

  /** Code points of any units, with a question mark for every surrogate that is not part of a pair. */
  function Repaired(u: seq<u16>): (cs: seq<nat>)
    ensures AreScalars(cs)
  {
    if u == [] then []
    else if IsHigh(u[0]) && |u| > 1 && IsLow(u[1]) then [Paired(u[0], u[1])] + Repaired(u[2..])
    else [if IsHigh(u[0]) || IsLow(u[0]) then QUESTION else u[0]] + Repaired(u[1..])
  }

  /**
   The same as far as `n` rounds of the loop get: one round for a unit, two for a pair, and two for a
   high surrogate without a low one, because the unit behind it is read a second time.
   */
  function Emitted(u: seq<u16>, n: nat): (cs: seq<nat>)
    requires n <= |u|
    ensures AreScalars(cs)
  {
    if n == 0 then []
    else if !IsHigh(u[0]) then [if IsLow(u[0]) then QUESTION else u[0]] + Emitted(u[1..], n - 1)
    else if n == 1 then []
    else if IsLow(u[1]) then [Paired(u[0], u[1])] + Emitted(u[2..], n - 2)
    else [QUESTION] + Emitted(u[1..], n - 2)
  }

  /** No high surrogate without its low one. */
  predicate HighsArePaired(u: seq<u16>) {
    if u == [] then true
    else if !IsHigh(u[0]) then HighsArePaired(u[1..])
    else |u| > 1 && IsLow(u[1]) && HighsArePaired(u[2..])
  }

  lemma ConsPrefix(c: nat, a: seq<nat>, b: seq<nat>)
    ensures a <= b <==> [c] + a <= [c] + b
    ensures a == b <==> [c] + a == [c] + b
  {
    assert ([c] + a)[1..] == a && ([c] + b)[1..] == b;
  }

  /** The loop stops before the end exactly if a high surrogate lacks its low one. */
  lemma {:induction false} EmittedIsPrefix(u: seq<u16>, n: nat)
    requires n <= |u|
    ensures Emitted(u, n) <= Repaired(u)
    ensures Emitted(u, n) == Repaired(u) <==> n == |u| && HighsArePaired(u)
    decreases n
  {
    if n == 0 {
    } else if !IsHigh(u[0]) {
      EmittedIsPrefix(u[1..], n - 1);
      ConsPrefix(Repaired(u)[0], Emitted(u[1..], n - 1), Repaired(u[1..]));
    } else if n > 1 && IsLow(u[1]) {
      EmittedIsPrefix(u[2..], n - 2);
      ConsPrefix(Repaired(u)[0], Emitted(u[2..], n - 2), Repaired(u[2..]));
    } else if n > 1 {
      EmittedIsPrefix(u[1..], n - 2);
      ConsPrefix(QUESTION, Emitted(u[1..], n - 2), Repaired(u[1..]));
    }
  }

  /** Behind an unpaired high surrogate, the last unit is lost. */
  lemma {:induction false} LastUnitIsLost()
    ensures Emitted([0xD800, 0x41], 2) == [0x3F] && Repaired([0xD800, 0x41]) == [0x3F, 0x41]
  {
    var u: seq<u16> := [0xD800, 0x41];
    assert u[1..] == [0x41] && [0x41 as u16][1..] == [];
    assert Repaired(u[1..]) == [0x41];
  }

  lemma {:induction false} DecodedIsEmitted(u: seq<u16>)
    requires Decode16(u).Some?
    ensures Emitted(u, |u|) == Repaired(u) == Decode16(u).value
  {
    if u != [] {
      DecodedIsEmitted(if IsHigh(u[0]) then u[2..] else u[1..]);
    }
  }

  /** Three octets for a round at most. */
  lemma {:induction false} EmittedFits(u: seq<u16>, n: nat)
    requires n <= |u|
    ensures |Encode8(Emitted(u, n))| <= 3 * n
    decreases n
  {
    if n == 0 {
    } else if !IsHigh(u[0]) {
      EmittedFits(u[1..], n - 1);
    } else if n > 1 && IsLow(u[1]) {
      EmittedFits(u[2..], n - 2);
    } else if n > 1 {
      EmittedFits(u[1..], n - 2);
    }
  }

  /** Well-formed UTF-16 keeps its meaning. */
  lemma {:induction false} MeaningIsKept(u: seq<u16>)
    requires Decode16(u).Some?
    ensures Decode8(Encode8(Emitted(u, |u|))) == Decode16(u)
  {
    DecodedIsEmitted(u);
    EncodedDecodes(Emitted(u, |u|));
  }

  /** The encoding of any scalar values in UTF-16 comes out as their encoding in UTF-8. */
  lemma {:induction false} EncodingIsKept(cs: seq<nat>)
    requires AreScalars(cs)
    ensures var u := Encode16(cs); Emitted(u, |u|) == cs
  {
    Encoded16Decodes(cs);
    DecodedIsEmitted(Encode16(cs));
  }

  lemma OneRepaired(c: nat, rest: seq<u16>)
    requires IsScalar(c)
    ensures Repaired(UnitsOf(c) + rest) == [c] + Repaired(rest)
    ensures HighsArePaired(UnitsOf(c) + rest) <==> HighsArePaired(rest)
  {
    var u := UnitsOf(c) + rest;
    if c >= 0x1_0000 {
      PairedUnits(c);
      assert u[0] == UnitsOf(c)[0] && u[1] == UnitsOf(c)[1] && u[2..] == rest;
      hide Paired;
    } else {
      assert u[0] == c && u[1..] == rest;
    }
  }

  /** Encoded values in front stay what they are. */
  lemma {:induction false} RepairedFront(cs: seq<nat>, v: seq<u16>)
    requires AreScalars(cs)
    ensures Repaired(Encode16(cs) + v) == cs + Repaired(v)
    ensures HighsArePaired(Encode16(cs) + v) <==> HighsArePaired(v)
  {
    if cs == [] {
      assert Encode16(cs) + v == v && cs + Repaired(v) == Repaired(v);
    } else {
      hide Repaired, HighsArePaired, UnitsOf;
      RepairedFront(cs[1..], v);
      OneRepaired(cs[0], Encode16(cs[1..]) + v);
      assert Encode16(cs) + v == UnitsOf(cs[0]) + (Encode16(cs[1..]) + v);
      assert [cs[0]] + (cs[1..] + Repaired(v)) == cs + Repaired(v);
    }
  }

  lemma StartsWithoutLow(cs: seq<nat>)
    requires AreScalars(cs) && cs != []
    ensures Encode16(cs) != [] && !IsLow(Encode16(cs)[0])
  {
  }

  /** A lone surrogate between encoded values is repaired to a question mark; behind a low one nothing is lost. */
  lemma {:induction false} LoneSurrogate(cs: seq<nat>, s: u16, ds: seq<nat>)
    requires AreScalars(cs) && AreScalars(ds) && 0xD800 <= s <= 0xDFFF
    ensures var u := Encode16(cs) + ([s] + Encode16(ds));
         Repaired(u) == cs + ([0x3F] + ds) && (s >= 0xDC00 ==> Emitted(u, |u|) == Repaired(u))
  {
    var v := Encode16(ds);
    RepairedFront(cs, [s] + v);
    RepairedFront(ds, []);
    assert v + [] == v && ds + Repaired([]) == ds;
    assert ([s] + v)[1..] == v;
    if ds != [] {
      StartsWithoutLow(ds);
    }
    EmittedIsPrefix(Encode16(cs) + ([s] + v), |Encode16(cs) + ([s] + v)|);
  }

  lemma AllEncodingsAreKept(u: seq<u16>)
    ensures forall cs {:trigger Encode16(cs)} :: AreScalars(cs) && u == Encode16(cs) ==> Emitted(u, |u|) == cs
  {
    hide Encode16, Emitted, AreScalars;
    forall cs | AreScalars(cs) && u == Encode16(cs)
      ensures Emitted(u, |u|) == cs
    {
      EncodingIsKept(cs);
    }
  }

  /** The examples of section 7 of RFC 3629 and section 4 of RFC 2781, octet by octet. */
  lemma {:induction false} Examples()
    ensures Encode8([0x41, 0x2262, 0x391, 0x2E]) == [0x41, 0xE2, 0x89, 0xA2, 0xCE, 0x91, 0x2E]
    ensures Encode16([0x1_2345, 0x3D]) == [0xD808, 0xDF45, 0x3D] && Encode8([0x1_F600]) == [0xF0, 0x9F, 0x98, 0x80]
  {
    var cs: seq<nat> := [0x41, 0x2262, 0x391, 0x2E];
    assert cs[1..] == [0x2262, 0x391, 0x2E] && cs[1..][1..] == [0x391, 0x2E] && cs[1..][1..][1..] == [0x2E];
    assert cs[1..][1..][1..][1..] == [];
    var ds: seq<nat> := [0x1_2345, 0x3D];
    assert ds[1..] == [0x3D] && ds[1..][1..] == [];
    var es: seq<nat> := [0x1_F600];
    assert es[1..] == [];
  }

  /** `dest` from `d` on, up to the returned index, takes in the octets of `c`. */
  method PutOne(dest: array<byte>, d: nat, c: nat) returns (end: nat)
    requires IsScalar(c) && d + |EncodeOne(c)| <= dest.Length
    modifies dest
    ensures end == d + |EncodeOne(c)| && dest[..end] == old(dest[..d]) + EncodeOne(c)
    ensures forall k {:trigger dest[k]} :: end <= k < dest.Length ==> dest[k] == old(dest[k])
  {
    if c <= 0x7F {
      dest[d] := c;
      end := d + 1;
    } else if c <= 0x7FF {
      dest[d], dest[d + 1] := 0xC0 + c / 0x40, 0x80 + c % 0x40;
      end := d + 2;
    } else if c < 0x1_0000 {
      dest[d], dest[d + 1], dest[d + 2] := 0xE0 + c / 0x1000, 0x80 + c / 0x40 % 0x40, 0x80 + c % 0x40;
      end := d + 3;
    } else {
      dest[d], dest[d + 1] := 0xF0 + c / 0x4_0000, 0x80 + c / 0x1000 % 0x40;
      dest[d + 2], dest[d + 3] := 0x80 + c / 0x40 % 0x40, 0x80 + c % 0x40;
      end := d + 4;
    }
    assert dest[..end] == old(dest[..d]) + EncodeOne(c);
  }

  /** What is left to emit, when `n` rounds are left, from unit `at` on, behind the high surrogate `high` if it is not 0. */
  ghost function ToEmit(u: seq<u16>, at: nat, n: nat, high: nat): (cs: seq<nat>)
    requires n + at <= |u| && (high != 0 ==> at > 0)
    ensures AreScalars(cs)
  {
    if high == 0 then Emitted(u[at..], n) else Emitted(u[at - 1..], n + 1)
  }

  predicate IsPending(u: seq<u16>, at: nat, n: nat, high: nat) {
    n + at <= |u| && (high != 0 ==> at > 0 && IsHigh(high) && u[at - 1] == high)
  }

  /** One round. */
  lemma EmitStep(u: seq<u16>, at: nat, n: nat, high: nat)
    requires n > 0 && IsPending(u, at, n, high)
    ensures var code, rest := u[at], n - 1;
         ToEmit(u, at, n, high)
         == if high != 0 then
              if IsLow(code) then [Paired(high, code)] + ToEmit(u, at + 1, rest, 0) else [QUESTION] + ToEmit(u, at, rest, 0)
            else if IsHigh(code) then ToEmit(u, at + 1, rest, code)
            else [if IsLow(code) then QUESTION else code] + ToEmit(u, at + 1, rest, 0)
  {
    if high != 0 {
      var v := u[at - 1..];
      assert v[0] == high && v[1] == u[at] && v[2..] == u[at + 1..] && v[1..] == u[at..];
    } else {
      var v := u[at..];
      assert v[0] == u[at] && v[1..] == u[at + 1..];
    }
  }

  lemma NothingPending(u: seq<u16>, at: nat, high: nat)
    requires IsPending(u, at, 0, high)
    ensures ToEmit(u, at, 0, high) == []
  {
  }

  lemma NothingEncoded()
    ensures Encode8([]) == []
  {
  }

  lemma EncodeCons(done: seq<byte>, c: nat, cs: seq<nat>)
    requires IsScalar(c) && AreScalars(cs)
    ensures AreScalars([c] + cs) && done + Encode8([c] + cs) == done + EncodeOne(c) + Encode8(cs)
  {
    hide EncodeOne;
    assert ([c] + cs)[1..] == cs;
  }

  /** `utf16_to_utf8`: what is emitted in `size` rounds, in UTF-8, and nothing behind it. */
  method Utf16ToUtf8(dest: array<byte>, src: seq<u16>, size: nat) returns (end: nat)
    requires size <= |src| && 3 * size <= dest.Length
    modifies dest
    ensures end <= 3 * size && dest[..end] == Encode8(Emitted(src[..size], size))
    ensures dest[end..] == old(dest[end..])
    ensures forall cs {:trigger Encode16(cs)} ::
              AreScalars(cs) && src[..size] == Encode16(cs) ==> dest[..end] == Encode8(cs)
  {
    hide EncodeOne, Encode8, Emitted, ToEmit, Paired, Encode16;
    ghost var u := src[..size];
    var n, at: nat, high := size, 0, 0;
    end := 0;
    ghost var goal := Encode8(Emitted(u, size));
    FirstRound(u);
    while n > 0
      invariant IsPending(u, at, n, high) && n <= size
      invariant end + (if high == 0 then 0 else 3) <= 3 * (size - n)
      invariant dest[..end] + Encode8(ToEmit(u, at, n, high)) == goal
      invariant forall k {:trigger dest[k]} :: end <= k < dest.Length ==> dest[k] == old(dest[k])
    {
      EmitStep(u, at, n, high);
      ghost var done := dest[..end];
      n := n - 1;
      var code := src[at];
      at := at + 1;
      if high != 0 {
        if IsLow(code) {
          EncodeCons(done, Paired(high, code), ToEmit(u, at, n, 0));
          end := PutOne(dest, end, Paired(high, code));
        } else {
          // the unit may be valid, so it is read again
          at := at - 1;
          EncodeCons(done, QUESTION, ToEmit(u, at, n, 0));
          end := PutOne(dest, end, QUESTION);
        }
        high := 0;
      } else if IsHigh(code) {
        high := code;
      } else {
        var c := if IsLow(code) then QUESTION else code;
        EncodeCons(done, c, ToEmit(u, at, n, 0));
        end := PutOne(dest, end, c);
      }
    }
    NothingPending(u, at, high);
    NothingEncoded();
    assert dest[..end] + [] == dest[..end];
    AllEncodingsAreKept(u);
  }

  lemma FirstRound(u: seq<u16>)
    ensures ToEmit(u, 0, |u|, 0) == Emitted(u, |u|)
  {
    assert u[0..] == u;
  }
}
