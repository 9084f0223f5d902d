/** The parsers of common.c and net/eth_common.c undo the printers of misc/vsnprintf.c and net/net.c. */
module RoundTrips {
  import opened Decimal
  import opened NumberTexts
  import opened Format
  import opened Parsers

  /** Digits somewhere in a string, with nothing behind them that prolongs them, are read as their number. */
  lemma ReadsDigits(s: string, i: nat, t: string, base: nat, n: nat)
    requires t != [] && i + |t| <= |s| && s[i..i + |t|] == t
    requires base == 8 || base == 10 || base == 16
    requires StandsFor(t, base, n) && n < U64_LIMIT
    requires !IsDigitOf(At(s, i + |t|), base) && ToLower(At(s, i + |t|)) != 'x'
    ensures Strtoul(s, i, base) == (n, i + |t|)
  {
    hide Value;
    var e := i + |t|;
    assert IsDigitOf(t[0], base);
    assert |t| > 1 ==> s[i + 1] == t[1] && IsDigitOf(t[1], base);
    RunOf(s, i, e, base);
    StrtoulIsValue(s, i, base);
  }

  // Numbers

  /** No blanks, no sign: what comes first is the number. */
  predicate StartsWithNumber(num: nat, base: nat, width: int, precision: int, f: Flags)
    requires base == 8 || base == 10 || base == 16
  {
    SignText(num, f) == "" && (f.left || f.zeropad || width <= |NumberText(num, base, -1, precision, f)|)
  }

  function ZeroCount(num: nat, base: nat, precision: int, f: Flags): nat
    requires base == 8 || base == 10 || base == 16
  {
    var n := |DigitsOf(Magnitude(num, f), base, f.small)|;
    if precision > n then precision - n else 0
  }

  /** The room a field leaves beside the number. */
  function Spare(num: nat, base: nat, width: int, precision: int, f: Flags): int
    requires base == 8 || base == 10 || base == 16
  {
    width - |SignText(num, f) + PrefixText(base, f)| - ZeroCount(num, base, precision, f)
    - |DigitsOf(Magnitude(num, f), base, f.small)|
  }

  lemma NumberParts(num: nat, base: nat, width: int, precision: int, f: Flags)
    requires base == 8 || base == 10 || base == 16
    ensures NumberText(num, base, width, precision, f)
         == Assemble(SignText(num, f) + PrefixText(base, f), Reversed(DigitsOf(Magnitude(num, f), base, f.small)),
                     ZeroCount(num, base, precision, f), Spare(num, base, width, precision, f), f)
  {
    hide Assemble, Reversed, DigitsOf, SignText, PrefixText;
  }

  lemma SpareRoom(num: nat, base: nat, width: int, precision: int, f: Flags)
    requires base == 8 || base == 10 || base == 16
    ensures Spare(num, base, width, precision, f) == width - |NumberText(num, base, -1, precision, f)|
  {
    NumberParts(num, base, -1, precision, f);
    AssembleLength(SignText(num, f) + PrefixText(base, f), Reversed(DigitsOf(Magnitude(num, f), base, f.small)),
                   ZeroCount(num, base, precision, f), Spare(num, base, -1, precision, f), f);
  }

  /** Such a text is a prefix, zeros, the digits, and blanks. */
  lemma NumberShape(num: nat, base: nat, width: int, precision: int, f: Flags) returns (zeros: nat, blanks: nat)
    requires base == 8 || base == 10 || base == 16
    requires StartsWithNumber(num, base, width, precision, f)
    ensures NumberText(num, base, width, precision, f)
         == PrefixText(base, f) + (Repeat('0', zeros) + Reversed(DigitsOf(num, base, f.small))) + Repeat(' ', blanks)
    ensures precision <= |DigitsOf(num, base, f.small)| && (f.left || !f.zeropad) ==> zeros == 0
  {
    SpareRoom(num, base, width, precision, f);
    NumberParts(num, base, width, precision, f);
    assert SignText(num, f) + PrefixText(base, f) == PrefixText(base, f);
    zeros, blanks := AssembleShape(PrefixText(base, f), Reversed(DigitsOf(num, base, f.small)),
                                   ZeroCount(num, base, precision, f), Spare(num, base, width, precision, f), f);
  }

  lemma AssembleLength(head: string, digits: string, zeros: nat, pad: int, f: Flags)
    requires pad < 0
    ensures |Assemble(head, digits, zeros, pad, f)| == |head| + zeros + |digits|
  {
  }

  lemma AssembleShape(head: string, digits: string, z: nat, pad: int, f: Flags) returns (zeros: nat, blanks: nat)
    requires f.left || f.zeropad || pad <= 0
    ensures Assemble(head, digits, z, pad, f) == head + (Repeat('0', zeros) + digits) + Repeat(' ', blanks)
    ensures z == 0 && (f.left || !f.zeropad) ==> zeros == 0
  {
    var more := if f.zeropad && !f.left && pad > 0 then pad else 0;
    zeros, blanks := z + more, if f.left && pad > 0 then pad else 0;
    assert Repeat('0', more) + Repeat('0', z) == Repeat('0', zeros);
    assert (if f.zeropad && !f.left then Repeat('0', pad) else "") == Repeat('0', more);
    assert (if f.left then Repeat(' ', pad) else "") == Repeat(' ', blanks);
    assert (if f.left || f.zeropad then "" else Repeat(' ', pad)) == "";
    Regroup(head, Repeat('0', more), Repeat('0', z), digits, Repeat(' ', blanks));
  }

  lemma Regroup(head: string, a: string, b: string, digits: string, end: string)
    ensures "" + head + a + b + digits + end == head + ((a + b) + digits) + end
  {
  }

  predicate IsPrefix(prefix: string, base: nat) {
    if base == 16 then prefix == "" || prefix == "0x" || prefix == "0X"
    else if base == 8 then prefix == "" || prefix == "0"
    else base == 10 && prefix == ""
  }

  lemma HexPrefixIsRead(prefix: string, t: string, end: string, n: nat)
    requires t != [] && StandsFor(t, 16, n) && n < U64_LIMIT
    requires prefix == "0x" || prefix == "0X"
    requires end == [] || end[0] == ' '
    ensures Strtoul(prefix + t + end, 0, 16) == Strtoul(prefix + t + end, 0, 0) == (n, |prefix + t|)
  {
    var s := prefix + t + end;
    assert s[2] == t[0] && IsDigitOf(t[0], 16);
    assert s[0] == '0' && ToLower(s[1]) == 'x';
    assert s[2..2 + |t|] == t;
    RunOf(s, 2, 2 + |t|, 16);
    StrtoulIsValue(s, 0, 16);
  }

  lemma PlainIsRead(t: string, end: string, base: nat, n: nat)
    requires t != [] && StandsFor(t, base, n) && n < U64_LIMIT
    requires base == 8 || base == 10 || base == 16
    requires end == [] || end[0] == ' '
    ensures Strtoul(t + end, 0, base) == (n, |t|)
  {
    assert (t + end)[0..|t|] == t;
    ReadsDigits(t + end, 0, t, base, n);
  }

  lemma {:induction false} PrefixedIsRead(prefix: string, t: string, end: string, base: nat, n: nat)
    requires IsPrefix(prefix, base) && t != [] && StandsFor(t, base, n) && n < U64_LIMIT
    requires end == [] || end[0] == ' '
    ensures Strtoul(prefix + t + end, 0, base) == (n, |prefix + t|)
  {
    if |prefix| == 2 {
      HexPrefixIsRead(prefix, t, end, n);
    } else {
      if prefix == "0" {
        LeadingZeros(1, t, base);
        assert Repeat('0', 1) == prefix;
      } else {
        assert prefix + t == t;
      }
      PlainIsRead(prefix + t, end, base, n);
    }
  }

  /** Base 0 finds the base by itself: from a prefix, or in a decimal number that has no leading zero. */
  lemma AutomaticIsRead(prefix: string, t: string, end: string, base: nat, n: nat)
    requires IsPrefix(prefix, base) && t != [] && StandsFor(t, base, n) && n < U64_LIMIT
    requires prefix != "" || (base == 10 && (t[0] != '0' || t == "0"))
    requires end == [] || end[0] == ' '
    ensures Strtoul(prefix + t + end, 0, 0) == (n, |prefix + t|)
  {
    var s := prefix + t + end;
    if |prefix| == 2 {
      HexPrefixIsRead(prefix, t, end, n);
    } else if t == "0" && base == 10 {
      assert prefix + t == t;
      assert Value(t[..0], 10) == 0 && StandsFor(t, 8, 0);
      PlainIsRead(t, end, 8, 0);
      assert FixupRadix(s, 0, 0) == FixupRadix(s, 0, 8);
    } else {
      assert IsDigitOf(t[0], base);
      assert s[|prefix|] == t[0];
      PrefixedIsRead(prefix, t, end, base, n);
      assert FixupRadix(s, 0, 0) == FixupRadix(s, 0, base);
    }
  }

  /** What comes first in any other text is a blank or a sign, and nothing is read. */
  lemma OtherwiseNothingIsRead(num: nat, base: nat, width: int, precision: int, f: Flags)
    requires base == 8 || base == 10 || base == 16
    requires !StartsWithNumber(num, base, width, precision, f)
    ensures Strtoul(NumberText(num, base, width, precision, f), 0, base) == (0, 0)
  {
    SpareRoom(num, base, width, precision, f);
    NumberParts(num, base, width, precision, f);
    AssembleStart(SignText(num, f) + PrefixText(base, f), Reversed(DigitsOf(Magnitude(num, f), base, f.small)),
                  ZeroCount(num, base, precision, f), Spare(num, base, width, precision, f), f);
    NothingToRead(NumberText(num, base, width, precision, f), base);
  }

  lemma NothingToRead(s: string, base: nat)
    requires base != 0 && s != "" && s[0] in "+- "
    ensures Strtoul(s, 0, base) == (0, 0)
  {
  }

  lemma AssembleStart(head: string, digits: string, z: nat, pad: int, f: Flags)
    requires (!f.left && !f.zeropad && pad > 0) || (head != "" && head[0] in "+- ")
    ensures var s := Assemble(head, digits, z, pad, f); s != "" && s[0] in "+- "
  {
  }

  /** `simple_strtoul` in the same base gives a printed number back exactly if nothing is put before it. */
  lemma {:induction false} NumberReadsBack(num: nat, base: nat, width: int, precision: int, f: Flags)
    requires (base == 8 || base == 10 || base == 16) && num < U64_LIMIT
    ensures Strtoul(NumberText(num, base, width, precision, f), 0, base).0 == num
       <==> num == 0 || StartsWithNumber(num, base, width, precision, f)
  {
    if StartsWithNumber(num, base, width, precision, f) {
      var zeros, blanks := NumberShape(num, base, width, precision, f);
      var digits := Reversed(DigitsOf(num, base, f.small));
      DigitsOfStandFor(num, base, f.small);
      LeadingZeros(zeros, digits, base);
      PrefixedIsRead(PrefixText(base, f), Repeat('0', zeros) + digits, Repeat(' ', blanks), base, num);
    } else {
      OtherwiseNothingIsRead(num, base, width, precision, f);
    }
  }

  lemma AssembledLength(head: string, digits: string, zeros: nat, pad: int, f: Flags)
    ensures |Assemble(head, digits, zeros, pad, f)| == |head| + zeros + |digits| + if pad > 0 then pad else 0
  {
    hide Repeat;
  }

  /** A printed number takes exactly its width, unless it is longer by itself. */
  lemma {:induction false} NumberFillsWidth(num: nat, base: nat, width: int, precision: int, f: Flags)
    requires base == 8 || base == 10 || base == 16
    ensures var alone := |NumberText(num, base, -1, precision, f)|;
         |NumberText(num, base, width, precision, f)| == if width > alone then width else alone
  {
    hide NumberText, Spare;
    SpareRoom(num, base, width, precision, f);
    SpareRoom(num, base, -1, precision, f);
    NumberParts(num, base, width, precision, f);
    NumberParts(num, base, -1, precision, f);
    var head, digits := SignText(num, f) + PrefixText(base, f), Reversed(DigitsOf(Magnitude(num, f), base, f.small));
    var zeros := ZeroCount(num, base, precision, f);
    AssembledLength(head, digits, zeros, Spare(num, base, width, precision, f), f);
    AssembledLength(head, digits, zeros, Spare(num, base, -1, precision, f), f);
  }

  /** A decimal number that no blanks precede is its sign, and behind it what reads back as its magnitude. */
  lemma {:induction false} SignedParts(num: nat, width: int, precision: int, f: Flags)
    requires num < U64_LIMIT && (f.left || f.zeropad || width <= |NumberText(num, 10, -1, precision, f)|)
    ensures var s, sign := NumberText(num, 10, width, precision, f), SignText(num, f);
         && |sign| < |s| && s[..|sign|] == sign && IsDigitOf(s[|sign|], 10)
         && Strtoul(s, |sign|, 10).0 == Magnitude(num, f)
  {
    var sign, digits := SignText(num, f), Reversed(DigitsOf(Magnitude(num, f), 10, f.small));
    var s := NumberText(num, 10, width, precision, f);
    SpareRoom(num, 10, width, precision, f);
    NumberParts(num, 10, width, precision, f);
    hide NumberText;
    assert sign + PrefixText(10, f) == sign;
    var zeros, blanks := AssembleShape(sign, digits, ZeroCount(num, 10, precision, f), Spare(num, 10, width, precision, f), f);
    DigitsOfStandFor(Magnitude(num, f), 10, f.small);
    LeadingZeros(zeros, digits, 10);
    SignedIsRead(sign, Repeat('0', zeros) + digits, Repeat(' ', blanks), Magnitude(num, f));
  }

  /**
   Every signed 64-bit number, passed as the unsigned number congruent to it, is printed with a minus
   sign exactly if it is negative; what reads back behind the sign is its absolute value.
   */
  lemma {:induction false} SignedReadsBack(i: int, num: nat, width: int, precision: int, f: Flags)
    requires -0x8000_0000_0000_0000 <= i < 0x8000_0000_0000_0000 && num == i % 0x1_0000_0000_0000_0000 && f.sign
    requires f.left || f.zeropad || width <= |NumberText(num, 10, -1, precision, f)|
    ensures var s, n := NumberText(num, 10, width, precision, f), if i < 0 || f.plus || f.space then 1 else 0;
         && |s| > n && (s[0] == '-' <==> i < 0)
         && (i >= 0 && f.plus ==> s[0] == '+') && (i >= 0 && !f.plus && f.space ==> s[0] == ' ')
         && Strtoul(s, n, 10).0 == if i < 0 then -i else i
  {
    SignedParts(num, width, precision, f);
    var s, sign := NumberText(num, 10, width, precision, f), SignText(num, f);
    hide NumberText, Strtoul;
    assert Magnitude(num, f) == if i < 0 then -i else i;
    assert sign == if i < 0 then "-" else if f.plus then "+" else if f.space then " " else "";
    assert sign != "" ==> s[0] == s[..|sign|][0];
  }

  lemma SignedIsRead(sign: string, t: string, end: string, n: nat)
    requires t != [] && StandsFor(t, 10, n) && n < U64_LIMIT && (end == [] || end[0] == ' ')
    ensures var s := sign + t + end;
         s[..|sign|] == sign && s[|sign|] == t[0] && IsDigitOf(t[0], 10) && Strtoul(s, |sign|, 10).0 == n
  {
    assert AllDigits(t, 10) && IsDigitOf(t[0], 10);
    hide Strtoul, StandsFor;
    var s := sign + t + end;
    assert s[|sign|..|sign| + |t|] == t;
    ReadsDigits(s, |sign|, t, 10, n);
  }

  lemma {:induction false} TopDigit(n: nat)
    ensures Dec(n) == "0" || Dec(n)[0] != '0'
  {
    if n < 10 {
      ReversedCons(Digit(n), []);
      assert [Digit(n)] + [] == [Digit(n)] && Reversed([]) + [Digit(n)] == [Digit(n)];
    } else {
      TopDigit(n / 10);
      hide Reversed;
      ReversedCons(Digit(n % 10), DigitsLsb(n / 10));
      if n / 10 < 10 {
        OneDigit(n / 10);
      }
    }
  }

  lemma OneDigit(n: nat)
    requires 0 < n < 10
    ensures Dec(n)[0] != '0'
  {
    assert Reversed([Digit(n)]) == [Digit(n)];
  }

  /** A prefix without digits is read as the digit 0 when it has to tell the base, and skipped when the base is given. */
  lemma {:induction false} PrefixAlone(x: char, r: string)
    requires (x == 'x' || x == 'X') && (r == "" || !IsXDigit(r[0]))
    ensures Strtoul(['0', x] + r, 0, 0) == (0, 1) && Strtoul(['0', x] + r, 0, 16) == (0, 2)
  {
    var s := ['0', x] + r;
    assert s[0] == '0' && s[1] == x && At(s, 2) == At(r, 0);
    assert RunEnd(s, 2, 16) == 2;
    assert RunEnd(s, 1, 8) == 1 && RunEnd(s, 0, 8) == 1;
    assert Value(s[0..1], 8) == 0 by { assert s[0..1] == ['0']; }
    assert Value(s[2..2], 16) == 0;
    hide Strtoul, Value, RunEnd;
    StrtoulIsValue(s, 0, 0);
    StrtoulIsValue(s, 0, 16);
  }

  /** With base 0 the prefix tells the base, and a decimal number needs none unless zeros stand before it. */
  lemma {:induction false} NumberTellsItsBase(num: nat, base: nat, width: int, precision: int, f: Flags)
    requires (base == 8 || base == 10 || base == 16) && num < U64_LIMIT
    requires StartsWithNumber(num, base, width, precision, f)
    requires if base == 10 then precision <= |Dec(num)| && (f.left || !f.zeropad) else f.special
    ensures Strtoul(NumberText(num, base, width, precision, f), 0, 0).0 == num
  {
    var zeros, blanks := NumberShape(num, base, width, precision, f);
    var digits := Reversed(DigitsOf(num, base, f.small));
    DigitsOfStandFor(num, base, f.small);
    LeadingZeros(zeros, digits, base);
    if base == 10 {
      TopDigit(num);
      assert Repeat('0', zeros) + digits == Dec(num);
    }
    AutomaticIsRead(PrefixText(base, f), Repeat('0', zeros) + digits, Repeat(' ', blanks), base, num);
  }
}
