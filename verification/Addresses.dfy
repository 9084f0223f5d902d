/** IP and MAC addresses as text (net/net.c, common.c, misc/vsnprintf.c, net/eth_common.c). */
module Addresses {
  import opened Bytes
  import opened Options
  import opened Decimal
  import opened NumberTexts
  import opened Printf
  import opened Format
  import opened Parsers
  import opened RoundTrips

  const U32_LIMIT := 0x1_0000_0000

  // IP addresses

  /** A number from its four octets, most significant first. */
  function Quad(a: nat, b: nat, c: nat, d: nat): nat {
    ((a * 256 + b) * 256 + c) * 256 + d
  }

  /** Octet `i` of a 32-bit number; octet 0 is the least significant one. */
  function Octet(x: nat, i: nat): (b: nat)
    ensures b < 256
  {
    (if i == 0 then x else if i == 1 then x / 0x100 else if i == 2 then x / 0x1_0000 else x / 0x100_0000) % 256
  }

  /** `ntohl` and `htonl` on a little-endian machine. */
  function SwapBytes(x: nat): (y: nat)
    ensures y < U32_LIMIT
  {
    Quad(Octet(x, 0), Octet(x, 1), Octet(x, 2), Octet(x, 3))
  }

  lemma QuadOctets(a: nat, b: nat, c: nat, d: nat)
    requires a < 256 && b < 256 && c < 256 && d < 256
    ensures var x := Quad(a, b, c, d); Octet(x, 3) == a && Octet(x, 2) == b && Octet(x, 1) == c && Octet(x, 0) == d
  {
    var x := Quad(a, b, c, d);
    assert x / 0x100 == (a * 256 + b) * 256 + c;
    assert x / 0x1_0000 == a * 256 + b;
    assert x / 0x100_0000 == a;
  }

  lemma OctetsQuad(x: nat)
    requires x < U32_LIMIT
    ensures Quad(Octet(x, 3), Octet(x, 2), Octet(x, 1), Octet(x, 0)) == x
  {
    assert x / 0x1_0000 == x / 0x100 / 0x100;
    assert x / 0x100_0000 == x / 0x1_0000 / 0x100;
  }

  lemma SwapTwice(x: nat)
    requires x < U32_LIMIT
    ensures SwapBytes(SwapBytes(x)) == x
  {
    QuadOctets(Octet(x, 0), Octet(x, 1), Octet(x, 2), Octet(x, 3));
    OctetsQuad(x);
  }

  /** Parts with a separator between them. */
  function Joined(parts: seq<string>, sep: string): string {
    if parts == [] then ""
    else if |parts| == 1 then parts[0]
    else parts[0] + (sep + Joined(parts[1..], sep))
  }

  lemma JoinedFour(a: string, b: string, c: string, d: string, sep: string)
    ensures Joined([a, b, c, d], sep) == a + (sep + (b + (sep + (c + (sep + d)))))
  {
    assert [a, b, c, d][1..] == [b, c, d];
    assert [b, c, d][1..] == [c, d];
    assert [c, d][1..] == [d];
    assert Joined([c, d], sep) == c + (sep + d);
    assert Joined([b, c, d], sep) == b + (sep + (c + (sep + d)));
  }

  /** The dotted text of an address in network byte order. */
  function IpText(x: nat): string {
    var y := SwapBytes(x);
    Joined([Dec(Octet(y, 3)), Dec(Octet(y, 2)), Dec(Octet(y, 1)), Dec(Octet(y, 0))], ".")
  }

  lemma PlainDecimal(n: nat)
    requires n < S64_LIMIT
    ensures NumberText(n, 10, -1, -1, NO_FLAGS.(sign := true)) == Dec(n)
  {
    assert "" + Dec(n) + "" == Dec(n);
  }

  /** `%d` without flags, width, precision or qualifier. */
  lemma PlainSpec(fmt: string, i: nat, args: seq<Arg>, n: nat)
    requires IsConversionAt(fmt, i)
    ensures ParseSpec(fmt, i + 1, args, n) == Spec(NO_FLAGS, -1, -1, '\0', i + 1, n)
  {
    assert ParseFlags(fmt, i + 1, NO_FLAGS) == (NO_FLAGS, i + 1);
  }

  lemma OctetConversion(fmt: string, s: Spec, args: seq<Arg>, ptr: PointerText)
    requires s.at < |fmt| && fmt[s.at] == 'd' && s == Spec(NO_FLAGS, -1, -1, '\0', s.at, s.used)
    requires s.used < |args| && args[s.used].Num? && args[s.used].bits < 256
    ensures ConversionText(fmt, s, args, ptr) == Dec(args[s.used].bits)
  {
    assert IntValue(s, 'd', args) == args[s.used].bits;
    PlainDecimal(args[s.used].bits);
  }

  lemma ConversionStep(fmt: string, i: nat, args: seq<Arg>, n: nat, ptr: PointerText)
    requires IsConversionAt(fmt, i)
    ensures var s := Spec(NO_FLAGS, -1, -1, '\0', i + 1, n);
         FormatText(fmt, i, args, n, ptr)
         == ConversionText(fmt, s, args, ptr) + FormatText(fmt, i + 2, args, n + 1, ptr)
  {
    var s := ParseSpec(fmt, i + 1, args, n);
    PlainSpec(fmt, i, args, n);
    assert AfterConversion(fmt, s) == i + 2 && UsedAfter(fmt, s) == n + 1;
  }

  lemma DecimalConversion(fmt: string, i: nat, args: seq<Arg>, n: nat, ptr: PointerText)
    requires IsConversionAt(fmt, i)
    requires n < |args| && args[n].Num? && args[n].bits < 256
    ensures FormatText(fmt, i, args, n, ptr) == Dec(args[n].bits) + FormatText(fmt, i + 2, args, n + 1, ptr)
  {
    ConversionStep(fmt, i, args, n, ptr);
    OctetConversion(fmt, Spec(NO_FLAGS, -1, -1, '\0', i + 1, n), args, ptr);
  }

  predicate IsConversionAt(fmt: string, i: nat) {
    i + 2 <= |fmt| && fmt[i] == '%' && fmt[i + 1] == 'd'
  }

  predicate IsDotted(fmt: string) {
    && |fmt| == 11 && fmt[2] == fmt[5] == fmt[8] == '.'
    && IsConversionAt(fmt, 0) && IsConversionAt(fmt, 3) && IsConversionAt(fmt, 6) && IsConversionAt(fmt, 9)
  }

  lemma ConversionAndDot(fmt: string, i: nat, args: seq<Arg>, n: nat, ptr: PointerText, v: nat)
    requires IsConversionAt(fmt, i) && i + 2 < |fmt| && fmt[i + 2] == '.'
    requires n < |args| && args[n] == Num(v) && v < 256
    ensures FormatText(fmt, i, args, n, ptr) == Dec(v) + ("." + FormatText(fmt, i + 3, args, n + 1, ptr))
  {
    DecimalConversion(fmt, i, args, n, ptr);
  }

  lemma LastParts(fmt: string, args: seq<Arg>, c: nat, d: nat, ptr: PointerText)
    requires IsDotted(fmt) && |args| == 4 && args[2] == Num(c) && args[3] == Num(d) && c < 256 && d < 256
    ensures FormatText(fmt, 6, args, 2, ptr) == Dec(c) + ("." + Dec(d))
  {
    hide ParseSpec, Dec, ConversionText;
    ConversionAndDot(fmt, 6, args, 2, ptr, c);
    DecimalConversion(fmt, 9, args, 3, ptr);
    assert Dec(d) + "" == Dec(d);
  }

  lemma DottedParts(fmt: string, args: seq<Arg>, a: nat, b: nat, c: nat, d: nat, ptr: PointerText)
    requires IsDotted(fmt) && a < 256 && b < 256 && c < 256 && d < 256
    requires |args| == 4 && args[0] == Num(a) && args[1] == Num(b) && args[2] == Num(c) && args[3] == Num(d)
    ensures FormatText(fmt, 0, args, 0, ptr)
         == Dec(a) + ("." + (Dec(b) + ("." + (Dec(c) + ("." + Dec(d))))))
  {
    hide FormatText, Dec, NumArg;
    ConversionAndDot(fmt, 0, args, 0, ptr, a);
    ConversionAndDot(fmt, 3, args, 1, ptr, b);
    LastParts(fmt, args, c, d, ptr);
  }

  lemma DottedText(a: nat, b: nat, c: nat, d: nat, ptr: PointerText)
    requires a < 256 && b < 256 && c < 256 && d < 256
    ensures FormatText("%d.%d.%d.%d", 0, [Num(a), Num(b), Num(c), Num(d)], 0, ptr)
         == Joined([Dec(a), Dec(b), Dec(c), Dec(d)], ".")
  {
    var fmt := "%d.%d.%d.%d";
    assert IsDotted(fmt);
    DottedParts(fmt, [Num(a), Num(b), Num(c), Num(d)], a, b, c, d, ptr);
    JoinedFour(Dec(a), Dec(b), Dec(c), Dec(d), ".");
  }

  lemma OctetTextIsShort(n: nat)
    requires n < 256
    ensures |Dec(n)| <= 3
  {
    if n >= 10 {
      assert |DigitsLsb(n)| == 1 + |DigitsLsb(n / 10)|;
      if n / 10 >= 10 {
        assert |DigitsLsb(n / 10)| == 1 + |DigitsLsb(n / 10 / 10)|;
        assert n / 10 / 10 < 10;
      }
    }
  }

  lemma IpTextIsShort(a: nat, b: nat, c: nat, d: nat)
    requires a < 256 && b < 256 && c < 256 && d < 256
    ensures |Joined([Dec(a), Dec(b), Dec(c), Dec(d)], ".")| <= 15
  {
    OctetTextIsShort(a);
    OctetTextIsShort(b);
    OctetTextIsShort(c);
    OctetTextIsShort(d);
    JoinedFour(Dec(a), Dec(b), Dec(c), Dec(d), ".");
  }

  /** `ip_to_string` */
  method IpToString(x: nat, s: array<char>, ptr: PointerText)
    requires x < U32_LIMIT && s.Length >= 16
    modifies s
    ensures |IpText(x)| < s.Length && s[..|IpText(x)|] == IpText(x) && s[|IpText(x)|] == '\0'
  {
    var y := SwapBytes(x);
    var a, b, c, d := Octet(y, 3), Octet(y, 2), Octet(y, 1), Octet(y, 0);
    DottedText(a, b, c, d, ptr);
    IpTextIsShort(a, b, c, d);
    var count := Vsnprintf(s, s.Length, "%d.%d.%d.%d", [Num(a), Num(b), Num(c), Num(d)], ptr);
    assert IpText(x)[..count] == IpText(x);
  }

  /** What `string_to_ip` collects from index `at` on, with `left` fields to come. */
  function Fields(s: string, at: nat, left: nat, acc: nat): Option<nat>
    requires at <= |s|
    decreases left, |s|
  {
    if left == 0 then Some(acc)
    else
      var (v, e) := Strtoul(s, at, 10);
      if v > 255 || (left > 1 && At(s, e) != '.') then None
      else Fields(s, if At(s, e) != '\0' then e + 1 else e, left - 1, acc * 256 + v)
  }

  /** The address in network byte order; 0 stands for a malformed one, too. */
  function IpOf(s: string): nat {
    match Fields(s, 0, 4, 0) case None => 0 case Some(y) => SwapBytes(y)
  }

  /** `string_to_ip` */
  method StringToIp(text: Option<string>) returns (addr: nat)
    ensures addr == if text.None? then 0 else IpOf(text.value)
  {
    addr := 0;
    if text.None? {
      return;
    }
    var s, at: nat, i: nat := text.value, 0, 0;
    while i < 4
      invariant i <= 4 && at <= |s|
      invariant Fields(s, at, 4 - i, addr) == Fields(s, 0, 4, 0)
    {
      var val, e := SimpleStrtoul(s, at, 10);
      if val > 255 {
        return 0;
      }
      if i != 3 && At(s, e) != '.' {
        return 0;
      }
      addr := addr * 256 + val;
      at := if At(s, e) != '\0' then e + 1 else e;
      i := i + 1;
    }
    addr := SwapBytes(addr);
  }

  lemma FieldFirst(s: string, at: nat, t: string, r: string)
    requires at <= |s| && s[at..] == t + r
    ensures at + |t| <= |s| && s[at..at + |t|] == t && At(s, at + |t|) == At(r, 0)
    ensures r != [] ==> at + |t| + 1 <= |s| && s[at + |t| + 1..] == r[1..]
  {
    assert s[at..at + |t|] == s[at..][..|t|];
    if r != [] {
      assert s[at + |t|] == (t + r)[|t|];
      assert s[at + |t| + 1..] == s[at..][|t| + 1..];
    }
  }

  lemma OctetStandsFor(n: nat)
    requires n < 256
    ensures AllDigits(Dec(n), 10) && Value(Dec(n), 10) % U64_LIMIT == n
  {
    hide Value;
    DigitsOfStandFor(n, 10, false);
  }

  lemma NoDecimal(c: char)
    requires !IsDigit(c)
    ensures !IsDigitOf(c, 10)
  {
  }

  lemma DecimalHasNoPrefix(s: string, at: nat)
    ensures FixupRadix(s, at, 10) == (10, at)
  {
  }

  /** A decimal octet is read up to what ends it. */
  lemma OctetIsRead(s: string, at: nat, n: nat, r: string)
    requires n < 256 && at <= |s| && s[at..] == Dec(n) + r && !IsDigit(At(r, 0)) && ToLower(At(r, 0)) != 'x'
    ensures Strtoul(s, at, 10) == (n, at + |Dec(n)|)
  {
    hide Strtoul, Dec, DigitsOf, Reversed, IsDigitOf, AllDigits, Value, FixupRadix, At, IsDigit, ToLower;
    FieldFirst(s, at, Dec(n), r);
    NoDecimal(At(r, 0));
    OctetStandsFor(n);
    DecimalHasNoPrefix(s, at);
    RunIsRead(s, at, Dec(n), 10);
  }

  lemma InnerField(s: string, at: nat, left: nat, acc: nat, t: string, n: nat, r: string)
    requires left > 1 && n < 256 && t == Dec(n) && at <= |s| && s[at..] == t + ("." + r)
    ensures at + |t| + 1 <= |s| && s[at + |t| + 1..] == r
    ensures Fields(s, at, left, acc) == Fields(s, at + |t| + 1, left - 1, acc * 256 + n)
  {
    hide Strtoul, Dec;
    FieldFirst(s, at, t, "." + r);
    OctetIsRead(s, at, n, "." + r);
    assert ("." + r)[1..] == r;
  }

  lemma LastField(s: string, at: nat, acc: nat, t: string, n: nat, r: string)
    requires n < 256 && t == Dec(n) && at <= |s| && s[at..] == t + r
    requires !IsDigit(At(r, 0)) && ToLower(At(r, 0)) != 'x'
    ensures Fields(s, at, 1, acc) == Some(acc * 256 + n)
  {
    hide Strtoul, Dec;
    OctetIsRead(s, at, n, r);
  }

  lemma FourFields(s: string, a: nat, b: nat, c: nat, d: nat,
                   ta: string, tb: string, tc: string, td: string,
                   r1: string, r2: string, r3: string, behind: string)
    requires a < 256 && b < 256 && c < 256 && d < 256 && !IsDigit(At(behind, 0)) && ToLower(At(behind, 0)) != 'x'
    requires ta == Dec(a) && tb == Dec(b) && tc == Dec(c) && td == Dec(d)
    requires s == ta + ("." + r1) && r1 == tb + ("." + r2) && r2 == tc + ("." + r3) && r3 == td + behind
    ensures Fields(s, 0, 4, 0) == Some(Quad(a, b, c, d))
  {
    hide Fields, Strtoul, Dec, IsDigit, ToLower;
    var at := |ta| + 1;
    assert s[0..] == s;
    InnerField(s, 0, 4, 0, ta, a, r1);
    InnerField(s, at, 3, a, tb, b, r2);
    at := at + |tb| + 1;
    InnerField(s, at, 2, a * 256 + b, tc, c, r3);
    at := at + |tc| + 1;
    LastField(s, at, (a * 256 + b) * 256 + c, td, d, behind);
  }

  lemma JoinedBefore(a: string, b: string, c: string, d: string, sep: string, behind: string)
    ensures Joined([a, b, c, d], sep) + behind == a + (sep + (b + (sep + (c + (sep + (d + behind))))))
  {
    JoinedFour(a, b, c, d, sep);
  }

  /** Every address survives being printed and read back, whatever follows it that does not prolong it. */
  lemma {:induction false} IpReadsBack(x: nat, behind: string)
    requires x < U32_LIMIT && !IsDigit(At(behind, 0)) && ToLower(At(behind, 0)) != 'x'
    ensures IpOf(IpText(x) + behind) == x
  {
    var y := SwapBytes(x);
    var a, b, c, d := Octet(y, 3), Octet(y, 2), Octet(y, 1), Octet(y, 0);
    JoinedBefore(Dec(a), Dec(b), Dec(c), Dec(d), ".", behind);
    var r3 := Dec(d) + behind;
    var r2 := Dec(c) + ("." + r3);
    var r1 := Dec(b) + ("." + r2);
    FourFields(IpText(x) + behind, a, b, c, d, Dec(a), Dec(b), Dec(c), Dec(d), r1, r2, r3, behind);
    OctetsQuad(y);
    SwapTwice(x);
  }

  /** An address whose octets in memory are `a`, `b`, `c`, `d` is written in that order, and so read. */
  lemma {:induction false} OctetsInOrder(a: byte, b: byte, c: byte, d: byte)
    ensures var x := a as int + 0x100 * b as int + 0x1_0000 * c as int + 0x100_0000 * d as int;
         && IpText(x) == Dec(a) + ("." + (Dec(b) + ("." + (Dec(c) + ("." + Dec(d))))))
         && IpOf(Dec(a) + ("." + (Dec(b) + ("." + (Dec(c) + ("." + Dec(d))))))) == x
  {
    var x := a as int + 0x100 * b as int + 0x1_0000 * c as int + 0x100_0000 * d as int;
    assert x == Quad(d, c, b, a);
    QuadOctets(d, c, b, a);
    QuadOctets(a, b, c, d);
    hide Octet;
    JoinedFour(Dec(a), Dec(b), Dec(c), Dec(d), ".");
    IpReadsBack(x, "");
    assert IpText(x) + "" == IpText(x);
  }

  // Which texts are addresses

  predicate AreDecimals(t: string) {
    forall k {:trigger t[k]} :: 0 <= k < |t| ==> '0' <= t[k] <= '9'
  }

  /** What a field of decimal digits is read as; an empty one as 0. */
  function FieldValue(t: string): (v: nat) {
    Value(t, 10) % U64_LIMIT
  }

  /** A field: as many decimal digits as there are. */
  lemma FieldAt(s: string, at: nat) returns (t: string, r: string)
    requires at <= |s|
    ensures s[at..] == t + r && AreDecimals(t) && !IsDigit(At(r, 0))
  {
    RunIsDigits(s, at, 10);
    var e := RunEnd(s, at, 10);
    t, r := s[at..e], s[e..];
  }

  lemma FieldIsRead(s: string, at: nat, t: string, r: string)
    requires at <= |s| && s[at..] == t + r && AreDecimals(t) && !IsDigit(At(r, 0))
    ensures Strtoul(s, at, 10) == (FieldValue(t), at + |t|)
  {
    FieldFirst(s, at, t, r);
    assert AllDigits(t, 10);
    DecimalHasNoPrefix(s, at);
    hide Value, Strtoul, FixupRadix, IsDigitOf, AllDigits, At;
    RunIsRead(s, at, t, 10);
  }

  /** Fields in front need a dot behind them and fit in an octet. */
  lemma FieldStep(s: string, at: nat, left: nat, acc: nat, t: string, r: string)
    requires left > 0 && at <= |s| && s[at..] == t + r && AreDecimals(t) && !IsDigit(At(r, 0))
    ensures left > 1 && (FieldValue(t) > 255 || At(r, 0) != '.') ==> Fields(s, at, left, acc).None?
    ensures left > 1 && FieldValue(t) <= 255 && At(r, 0) == '.' ==>
              && at + |t| + 1 <= |s| && s[at + |t| + 1..] == r[1..]
              && Fields(s, at, left, acc) == Fields(s, at + |t| + 1, left - 1, acc * 256 + FieldValue(t))
    ensures left == 1 ==>
              Fields(s, at, left, acc) == if FieldValue(t) <= 255 then Some(acc * 256 + FieldValue(t)) else None
  {
    hide Strtoul, FieldValue, AreDecimals;
    FieldFirst(s, at, t, r);
    FieldIsRead(s, at, t, r);
  }

  /** The number that four fields stand for, the first of them in the lowest octet. */
  function QuadOf(a: nat, b: nat, c: nat, d: nat): nat {
    if a <= 255 && b <= 255 && c <= 255 && d <= 255 then a + 0x100 * b + 0x1_0000 * c + 0x100_0000 * d else 0
  }

  lemma AfterDot(t: string, r: string)
    ensures t + ("." + r) == t + (['.'] + r) && At("." + r, 0) == '.' && ("." + r)[1..] == r && !IsDigit('.')
  {
  }

  lemma DottedFields(ta: string, tb: string, tc: string, td: string, behind: string)
    requires AreDecimals(ta) && AreDecimals(tb) && AreDecimals(tc) && AreDecimals(td) && !IsDigit(At(behind, 0))
    ensures IpOf(ta + ("." + (tb + ("." + (tc + ("." + (td + behind)))))))
         == QuadOf(FieldValue(ta), FieldValue(tb), FieldValue(tc), FieldValue(td))
  {
    var r3 := td + behind;
    var r2 := tc + ("." + r3);
    var r1 := tb + ("." + r2);
    var s := ta + ("." + r1);
    var a, b, c, d := FieldValue(ta), FieldValue(tb), FieldValue(tc), FieldValue(td);
    hide Fields, FieldValue, AreDecimals, IsDigit, SwapBytes, QuadOf;
    AfterDot(ta, r1);
    AfterDot(tb, r2);
    AfterDot(tc, r3);
    assert s[0..] == s;
    FieldStep(s, 0, 4, 0, ta, "." + r1);
    if a <= 255 {
      var at := |ta| + 1;
      FieldStep(s, at, 3, a, tb, "." + r2);
      if b <= 255 {
        at := at + |tb| + 1;
        FieldStep(s, at, 2, a * 256 + b, tc, "." + r3);
        if c <= 255 {
          at := at + |tc| + 1;
          FieldStep(s, at, 1, (a * 256 + b) * 256 + c, td, behind);
        }
      }
    }
    QuadIs(a, b, c, d);
  }

  lemma QuadIs(a: nat, b: nat, c: nat, d: nat)
    ensures QuadOf(a, b, c, d) == if a <= 255 && b <= 255 && c <= 255 && d <= 255 then SwapBytes(Quad(a, b, c, d)) else 0
  {
    if a <= 255 && b <= 255 && c <= 255 && d <= 255 {
      QuadOctets(a, b, c, d);
    }
  }

  /** Four fields with dots between them are an address if all fit in an octet, and 0 otherwise. */
  lemma {:induction false} DottedIsRead(ta: string, tb: string, tc: string, td: string, behind: string)
    requires AreDecimals(ta) && AreDecimals(tb) && AreDecimals(tc) && AreDecimals(td) && !IsDigit(At(behind, 0))
    ensures IpOf(ta + ("." + (tb + ("." + (tc + ("." + (td + behind)))))))
         == QuadOf(Value(ta, 10) % U64_LIMIT, Value(tb, 10) % U64_LIMIT, Value(tc, 10) % U64_LIMIT, Value(td, 10) % U64_LIMIT)
  {
    hide AreDecimals, IpOf, QuadOf;
    DottedFields(ta, tb, tc, td, behind);
  }

  /** No other text is an address. */
  lemma {:induction false} OnlyDottedIsRead(s: string)
    returns (ta: string, tb: string, tc: string, td: string, behind: string)
    requires IpOf(s) != 0
    ensures s == ta + ("." + (tb + ("." + (tc + ("." + (td + behind))))))
    ensures AreDecimals(ta) && AreDecimals(tb) && AreDecimals(tc) && AreDecimals(td) && !IsDigit(At(behind, 0))
  {
    hide Fields, FieldValue, AreDecimals, IsDigit;
    var r1, r2, r3, at;
    assert s[0..] == s;
    ta, r1 := FieldAt(s, 0);
    FieldStep(s, 0, 4, 0, ta, r1);
    at := |ta| + 1;
    tb, r2 := FieldAt(s, at);
    FieldStep(s, at, 3, FieldValue(ta), tb, r2);
    at := at + |tb| + 1;
    tc, r3 := FieldAt(s, at);
    FieldStep(s, at, 2, FieldValue(ta) * 256 + FieldValue(tb), tc, r3);
    at := at + |tc| + 1;
    td, behind := FieldAt(s, at);
    Undotted(r3, td + behind);
    Undotted(r2, tc + r3);
    Undotted(r1, tb + r2);
  }

  lemma Undotted(r: string, t: string)
    requires At(r, 0) == '.' && r[1..] == t
    ensures r == "." + t
  {
  }

  // MAC addresses

  /** `hex_byte_pack` */
  function HexByte(b: byte): string {
    [HexDigit(b / 16, true), HexDigit(b % 16, true)]
  }

  function HexBytes(addr: seq<byte>): (ts: seq<string>)
    ensures |ts| == |addr|
  {
    if addr == [] then [] else [HexByte(addr[0])] + HexBytes(addr[1..])
  }

  /** A MAC address as it is written; the `#` flag leaves the colons out. */
  function MacText(addr: seq<byte>, special: bool): string {
    Joined(HexBytes(addr), if special then "" else ":")
  }

  function Pair(b: byte): string {
    ["0123456789abcdef"[b / 16], "0123456789abcdef"[b % 16]]
  }

  lemma PairIs(b: byte)
    ensures HexByte(b) == Pair(b)
  {
  }

  /** Two small hexadecimal digits for each octet, in order. */
  lemma {:induction false} MacTextIs(addr: seq<byte>)
    requires |addr| == 6
    ensures MacText(addr, false) == Pair(addr[0]) + (":" + (Pair(addr[1]) + (":" + (Pair(addr[2]) + (":" +
              (Pair(addr[3]) + (":" + (Pair(addr[4]) + (":" + Pair(addr[5]))))))))))
    ensures MacText(addr, true) == Pair(addr[0]) + (Pair(addr[1]) + (Pair(addr[2]) + (Pair(addr[3]) + (Pair(addr[4]) + Pair(addr[5])))))
  {
    var a, b, c, d, e, f := Pair(addr[0]), Pair(addr[1]), Pair(addr[2]), Pair(addr[3]), Pair(addr[4]), Pair(addr[5]);
    SixPairs(addr);
    hide Pair, HexBytes;
    JoinedSix(a, b, c, d, e, f, ":");
    JoinedSix(a, b, c, d, e, f, "");
    assert "" + f == f && "" + (e + f) == e + f && "" + (d + (e + f)) == d + (e + f);
    assert "" + (c + (d + (e + f))) == c + (d + (e + f)) && "" + (b + (c + (d + (e + f)))) == b + (c + (d + (e + f)));
  }

  lemma SixPairs(addr: seq<byte>)
    requires |addr| == 6
    ensures HexBytes(addr) == [Pair(addr[0]), Pair(addr[1]), Pair(addr[2]), Pair(addr[3]), Pair(addr[4]), Pair(addr[5])]
  {
    hide HexByte, Pair;
    PairsAre(addr);
  }

  lemma {:induction false} PairsAre(addr: seq<byte>)
    ensures forall k {:trigger addr[k]} :: 0 <= k < |addr| ==> HexBytes(addr)[k] == Pair(addr[k])
  {
    if addr != [] {
      PairIs(addr[0]);
      hide HexByte, Pair;
      PairsAre(addr[1..]);
      forall k | 0 <= k < |addr|
        ensures HexBytes(addr)[k] == Pair(addr[k])
      {
        assert k > 0 ==> addr[1..][k - 1] == addr[k];
      }
    }
  }

  lemma JoinedSix(a: string, b: string, c: string, d: string, e: string, f: string, sep: string)
    ensures Joined([a, b, c, d, e, f], sep) == a + (sep + (b + (sep + (c + (sep + (d + (sep + (e + (sep + f)))))))))
  {
    assert [a, b, c, d, e, f][1..] == [b, c, d, e, f];
    assert [b, c, d, e, f][1..] == [c, d, e, f];
    JoinedFour(c, d, e, f, sep);
  }

  lemma {:induction false} JoinedSnoc(ts: seq<string>, t: string, sep: string)
    ensures Joined(ts + [t], sep) == (if ts == [] then "" else Joined(ts, sep) + sep) + t
  {
    if |ts| == 1 {
      assert (ts + [t])[1..] == [t];
    } else if |ts| > 1 {
      assert (ts + [t])[1..] == ts[1..] + [t];
      JoinedSnoc(ts[1..], t, sep);
    }
  }

  lemma {:induction false} HexBytesSnoc(addr: seq<byte>, b: byte)
    ensures HexBytes(addr + [b]) == HexBytes(addr) + [HexByte(b)]
  {
    if addr != [] {
      assert (addr + [b])[1..] == addr[1..] + [b];
      HexBytesSnoc(addr[1..], b);
    }
  }

  lemma MacTextSnoc(addr: seq<byte>, b: byte, special: bool)
    ensures MacText(addr + [b], special)
         == (if addr == [] then "" else MacText(addr, special) + if special then "" else ":") + HexByte(b)
  {
    HexBytesSnoc(addr, b);
    JoinedSnoc(HexBytes(addr), HexByte(b), if special then "" else ":");
  }

  /** The loop of `mac_address_string`. */
  method FillMacText(addr: seq<byte>, special: bool) returns (p: string)
    requires |addr| == 6
    ensures p == MacText(addr, special)
  {
    p := "";
    assert MacText(addr[..0], special) == "";
    for i := 0 to 6
      invariant p == MacText(addr[..i], special) + (if !special && 0 < i < 6 then ":" else "")
    {
      hide MacText, HexByte;
      MacTextSnoc(addr[..i], addr[i], special);
      assert addr[..i + 1] == addr[..i] + [addr[i]];
      p := p + HexByte(addr[i]);
      if !special && i != 5 {
        p := p + ":";
      }
    }
    assert addr[..6] == addr;
  }

  /** `mac_address_string` */
  method MacAddressString(o: Output, addr: seq<byte>, width: int, precision: int, f: Flags)
    requires o.Valid() && |addr| == 6
    modifies o`str, o`out, o.buf
    ensures o.Valid()
    ensures o.out == old(o.out) + StringText(Some(MacText(addr, f.special)), width, precision, f.(special := false))
  {
    var p := FillMacText(addr, f.special);
    o.String(Some(p), width, precision, f.(special := false));
  }

  /** What `eth_parse_enetaddr` makes of the text from index `at` on, with `left` octets to come. */
  function EnetFrom(s: string, at: nat, left: nat): (r: seq<byte>)
    requires at <= |s|
    ensures |r| == left
    decreases left, |s|
  {
    if left == 0 then []
    else
      var (v, e) := Strtoul(s, at, 16);
      [v % 256] + EnetFrom(s, if At(s, e) != '\0' then e + 1 else e, left - 1)
  }

  lemma OneMore(done: seq<byte>, b: byte, rest: seq<byte>)
    ensures done + ([b] + rest) == done + [b] + rest
  {
  }

  /** `eth_parse_enetaddr` */
  method EthParseEnetaddr(addr: Option<string>, enetaddr: array<byte>)
    requires enetaddr.Length == 6
    modifies enetaddr
    ensures enetaddr[..] == match addr case None => [0, 0, 0, 0, 0, 0] case Some(s) => EnetFrom(s, 0, 6)
  {
    match addr {
      case None =>
        for i := 0 to 6
          invariant forall k :: 0 <= k < i ==> enetaddr[k] == 0
        {
          enetaddr[i] := 0;
        }
      case Some(s) =>
        ParseEnetaddr(s, enetaddr);
    }
  }

  /** Its loop, for an address that is given. */
  method ParseEnetaddr(s: string, enetaddr: array<byte>)
    requires enetaddr.Length == 6
    modifies enetaddr
    ensures enetaddr[..] == EnetFrom(s, 0, 6)
  {
    hide Strtoul, EnetFrom;
    ghost var goal := EnetFrom(s, 0, 6);
    var at: nat := 0;
    for i := 0 to 6
      invariant at <= |s|
      invariant enetaddr[..i] + EnetFrom(s, at, 6 - i) == goal
    {
      NextOctet(s, at, 6 - i);
      var v, e := SimpleStrtoul(s, at, 16);
      at := if At(s, e) != '\0' then e + 1 else e;
      ghost var done, rest := enetaddr[..i], EnetFrom(s, at, 5 - i);
      enetaddr[i] := v % 256;
      OneMore(done, enetaddr[i], rest);
      assert enetaddr[..i + 1] == done + [enetaddr[i]];
    }
    assert EnetFrom(s, at, 0) == [];
  }

  lemma NextOctet(s: string, at: nat, left: nat)
    requires at <= |s| && left > 0
    ensures var (v, e) := Strtoul(s, at, 16);
         EnetFrom(s, at, left) == [v % 256] + EnetFrom(s, if At(s, e) != '\0' then e + 1 else e, left - 1)
  {
    hide Strtoul;
  }

  lemma HexByteStandsFor(b: byte)
    ensures StandsFor(HexByte(b), 16, b)
  {
    assert Value([], 16) == 0;
    hide Value, HexDigit, DigitValue, IsDigitOf;
    HexDigitIsDigit(b / 16, true, 16);
    HexDigitIsDigit(b % 16, true, 16);
    ValueSnoc([], HexDigit(b / 16, true), 16);
    ValueSnoc([HexDigit(b / 16, true)], HexDigit(b % 16, true), 16);
    assert [] + [HexDigit(b / 16, true)] == [HexDigit(b / 16, true)];
    assert HexByte(b) == [HexDigit(b / 16, true)] + [HexDigit(b % 16, true)];
  }

  /** The first octet of a MAC address is read up to what ends it. */
  lemma HexByteIsRead(s: string, at: nat, b: byte, r: string)
    requires at <= |s| && s[at..] == HexByte(b) + r && !IsXDigit(At(r, 0)) && ToLower(At(r, 0)) != 'x'
    ensures Strtoul(s, at, 16) == (b, at + 2)
    ensures at + 2 <= |s| && At(s, at + 2) == At(r, 0) && (r != [] ==> at + 3 <= |s| && s[at + 3..] == r[1..])
  {
    hide Strtoul;
    HexByteStandsFor(b);
    FieldFirst(s, at, HexByte(b), r);
    ReadsDigits(s, at, HexByte(b), 16, b);
  }

  lemma EnetStep(s: string, at: nat, left: nat, b: byte, r: string)
    requires at <= |s| && left > 0 && s[at..] == HexByte(b) + r && !IsXDigit(At(r, 0)) && ToLower(At(r, 0)) != 'x'
    requires left > 1 ==> r != [] && r[0] != '\0'
    ensures left > 1 ==> at + 3 <= |s| && s[at + 3..] == r[1..]
    ensures EnetFrom(s, at, left) == [b] + if left == 1 then [] else EnetFrom(s, at + 3, left - 1)
  {
    hide Strtoul, HexByte;
    HexByteIsRead(s, at, b, r);
  }

  lemma MacTextSplit(addr: seq<byte>, behind: string)
    requires |addr| > 1
    ensures MacText(addr, false) + behind == HexByte(addr[0]) + (":" + (MacText(addr[1..], false) + behind))
  {
    JoinedSplit(HexBytes(addr), ":", behind);
  }

  lemma JoinedSplit(ts: seq<string>, sep: string, behind: string)
    requires |ts| > 1
    ensures Joined(ts, sep) + behind == ts[0] + (sep + (Joined(ts[1..], sep) + behind))
  {
  }

  /** Every MAC address survives being printed and read back. */
  lemma {:induction false} MacReadsBack(addr: seq<byte>, s: string, at: nat, behind: string)
    requires addr != [] && at <= |s| && s[at..] == MacText(addr, false) + behind
    requires !IsXDigit(At(behind, 0)) && ToLower(At(behind, 0)) != 'x'
    ensures EnetFrom(s, at, |addr|) == addr
    decreases |addr|
  {
    hide EnetFrom, HexByte;
    if |addr| == 1 {
      assert MacText(addr, false) == HexByte(addr[0]);
      EnetStep(s, at, 1, addr[0], behind);
    } else {
      hide MacText;
      var rest := ":" + (MacText(addr[1..], false) + behind);
      MacTextSplit(addr, behind);
      DropColon(MacText(addr[1..], false) + behind);
      EnetStep(s, at, |addr|, addr[0], rest);
      MacReadsBack(addr[1..], s, at + 3, behind);
      assert [addr[0]] + addr[1..] == addr;
    }
  }

  lemma DropColon(r: string)
    ensures (":" + r)[1..] == r && At(":" + r, 0) == ':' && ":" + r != []
  {
  }

  // Which octets a text gives

  predicate AreHexDigits(t: string) {
    forall k {:trigger t[k]} :: 0 <= k < |t| ==> '0' <= t[k] <= '9' || 'a' <= t[k] <= 'f' || 'A' <= t[k] <= 'F'
  }

  /** A character that ends a field: neither a digit, nor part of a prefix, nor the end of the text. */
  predicate Separates(c: char) {
    c != '\0' && c != 'x' && c != 'X' && !('0' <= c <= '9') && !('a' <= c <= 'f') && !('A' <= c <= 'F')
  }

  /** The octets of hexadecimal fields, each cut to its low eight bits, and zeros behind them. */
  function OctetsGiven(ts: seq<string>, left: nat): (r: seq<byte>) {
    if ts == [] || left == 0 then ZeroOctets(left)
    else [Value(ts[0], 16) % U64_LIMIT % 256] + OctetsGiven(ts[1..], left - 1)
  }

  function ZeroOctets(n: nat): seq<byte> {
    if n == 0 then [] else [0] + ZeroOctets(n - 1)
  }

  lemma AreDigits(t: string)
    requires AreHexDigits(t)
    ensures AllDigits(t, 16)
  {
  }

  lemma NoDigit(c: char)
    requires c == '\0' || Separates(c)
    ensures !IsDigitOf(c, 16)
  {
  }

  lemma NoPrefix(s: string, at: nat, t: string, r: string)
    requires at <= |s| && s[at..] == t + r && AreHexDigits(t) && (r == [] || Separates(r[0]))
    ensures FixupRadix(s, at, 16) == (16, at)
  {
    assert |t| > 0 ==> At(s, at) == (t + r)[0];
    assert |t| > 1 ==> At(s, at + 1) == (t + r)[1];
    assert |t| == 1 && r != [] ==> At(s, at + 1) == (t + r)[1];
    assert t == [] && r != [] ==> At(s, at) == (t + r)[0];
  }

  lemma HexFieldIsRead(s: string, at: nat, t: string, r: string)
    requires at <= |s| && s[at..] == t + r && AreHexDigits(t) && (r == [] || Separates(r[0]))
    ensures Strtoul(s, at, 16) == (Value(t, 16) % U64_LIMIT, at + |t|)
  {
    FieldFirst(s, at, t, r);
    NoPrefix(s, at, t, r);
    AreDigits(t);
    NoDigit(At(r, 0));
    hide Value, Strtoul, FixupRadix, IsDigitOf, AllDigits, At;
    RunIsRead(s, at, t, 16);
  }

  lemma {:induction false} NothingLeft(s: string, left: nat)
    ensures EnetFrom(s, |s|, left) == ZeroOctets(left)
  {
    if left > 0 {
      assert Strtoul(s, |s|, 16) == (0, |s|);
      NothingLeft(s, left - 1);
    }
  }

  /** Any separator will do, fields may have any number of digits, and may be too few or too many. */
  lemma {:induction false} OctetsAreGiven(ts: seq<string>, sep: char, s: string, at: nat, left: nat)
    requires ts != [] && (forall k {:trigger ts[k]} :: 0 <= k < |ts| ==> AreHexDigits(ts[k])) && Separates(sep)
    requires at <= |s| && s[at..] == Joined(ts, [sep])
    ensures EnetFrom(s, at, left) == OctetsGiven(ts, left)
    decreases left
  {
    hide Value, Strtoul, AreHexDigits, Separates, EnetFrom;
    if left > 0 {
      var r := if |ts| == 1 then "" else [sep] + Joined(ts[1..], [sep]);
      assert s[at..] == ts[0] + r;
      FieldFirst(s, at, ts[0], r);
      HexFieldIsRead(s, at, ts[0], r);
      NextOctet(s, at, left);
      if |ts| == 1 {
        NothingLeft(s, left - 1);
        assert ts[1..] == [];
      } else {
        assert sep != '\0' by { SeparatorGoesOn(sep); }
        OctetsAreGiven(ts[1..], sep, s, at + |ts[0]| + 1, left - 1);
      }
    }
  }

  lemma SeparatorGoesOn(c: char)
    requires Separates(c)
    ensures c != '\0'
  {
  }
}
