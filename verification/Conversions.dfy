/** What the conversions of a format print, in terms of the numbers and strings passed. */
module Conversions {
  import opened Options
  import opened Decimal
  import opened NumberTexts
  import opened Format
  import opened Parsers
  import opened RoundTrips

  // Numbers

  /** `n` in place-value notation with the given digits, as many as the base. */
  function Numeral(n: nat, digits: string): (s: string)
    requires |digits| == 8 || |digits| == 10 || |digits| == 16
    ensures s != []
  {
    if n < |digits| then [digits[n]]
    else
      QuotientIsLess(n, |digits|);
      Numeral(n / |digits|, digits) + [digits[n % |digits|]]
  }

  lemma QuotientIsLess(n: nat, base: nat)
    requires (base == 8 || base == 10 || base == 16) && n > 0
    ensures n / base < n && n % base < base
  {
    if base == 8 {
      assert n / 8 < n;
    } else if base == 10 {
      assert n / 10 < n;
    } else {
      assert n / 16 < n;
    }
  }

  function DigitsFor(base: nat, small: bool): (digits: string)
    requires base == 8 || base == 10 || base == 16
    ensures |digits| == base
  {
    if base == 8 then "01234567"
    else if base == 10 then "0123456789"
    else if small then "0123456789abcdef" else "0123456789ABCDEF"
  }

  lemma DigitIs(d: nat, base: nat, small: bool)
    requires (base == 8 || base == 10 || base == 16) && d < base
    ensures HexDigit(d, small) == DigitsFor(base, small)[d]
  {
  }

  lemma {:induction false} NumeralIs(n: nat, base: nat, small: bool)
    requires base == 8 || base == 10 || base == 16
    ensures Reversed(DigitsOf(n, base, small)) == Numeral(n, DigitsFor(base, small))
    decreases n
  {
    hide DigitsFor, HexDigit, DigitsOf;
    DigitsStep(n, base, small);
    DigitIs(n % base, base, small);
    var low := if n < base then [] else DigitsOf(n / base, base, small);
    ReversedCons(HexDigit(n % base, small), low);
    if n >= base {
      NumeralIs(n / base, base, small);
    } else {
      assert Reversed(low) == [];
    }
  }

  /** What stands in front of a number. */
  function SignFor(i: int, f: Flags): string {
    if i < 0 then "-" else if f.sign && f.plus then "+" else if f.sign && f.space then " " else ""
  }

  function PrefixFor(base: nat, f: Flags): string {
    if !f.special then "" else if base == 8 then "0" else if base == 16 then (if f.small then "0x" else "0X") else ""
  }

  /** At least `precision` digits, in a field of at least `width` characters. */
  function Layout(sign: string, prefix: string, numeral: string, width: int, precision: int, f: Flags): string {
    var zeros := Repeat('0', precision - |numeral|);
    var own := sign + prefix + zeros + numeral;
    if f.left then own + Repeat(' ', width - |own|)
    else if f.zeropad then sign + prefix + Repeat('0', width - |own|) + zeros + numeral
    else Repeat(' ', width - |own|) + own
  }

  function Abs(i: int): nat {
    if i < 0 then -i else i
  }

  /** What `num`, an `unsigned long long`, is printed for. */
  predicate IsPassed(i: int, num: nat, signed: bool) {
    && (if signed then -0x8000_0000_0000_0000 <= i < 0x8000_0000_0000_0000 else 0 <= i < 0x1_0000_0000_0000_0000)
    && num == i % 0x1_0000_0000_0000_0000
  }

  lemma AssembleIsLayout(sign: string, prefix: string, digits: string, zeros: nat, pad: int, width: int, precision: int, f: Flags)
    requires zeros == (if precision > |digits| then precision - |digits| else 0)
    requires pad == width - |sign + prefix| - zeros - |digits|
    ensures Assemble(sign + prefix, digits, zeros, pad, f) == Layout(sign, prefix, digits, width, precision, f)
  {
    hide Repeat;
    SameZeros(zeros, precision - |digits|);
    Gaps(sign + prefix, Repeat('0', pad), Repeat('0', zeros), digits, Repeat(' ', pad));
  }

  /** Nothing in the gaps of a text changes nothing. */
  lemma Gaps(head: string, fill: string, zeros: string, digits: string, blanks: string)
    ensures "" + head + "" + zeros + digits + blanks == head + zeros + digits + blanks
    ensures "" + head + fill + zeros + digits + "" == head + fill + zeros + digits
    ensures blanks + head + "" + zeros + digits + "" == blanks + (head + zeros + digits)
  {
    assert "" + head == head && head + "" == head && blanks + head + "" == blanks + head;
    assert head + fill + zeros + digits + "" == head + fill + zeros + digits;
    assert blanks + head + zeros + digits == blanks + (head + zeros + digits);
  }

  lemma SameZeros(zeros: nat, n: int)
    requires zeros == if n > 0 then n else 0
    ensures Repeat('0', zeros) == Repeat('0', n)
  {
  }

  /** The number `i` in every base, field and precision. */
  lemma {:induction false} NumberIs(i: int, num: nat, base: nat, width: int, precision: int, f: Flags)
    requires (base == 8 || base == 10 || base == 16) && IsPassed(i, num, f.sign)
    ensures NumberText(num, base, width, precision, f)
         == Layout(SignFor(i, f), PrefixFor(base, f), Numeral(Abs(i), DigitsFor(base, f.small)), width, precision, f)
  {
    hide DigitsFor, DigitsOf, Numeral, Assemble, Layout, Reversed;
    assert Magnitude(num, f) == Abs(i) && SignText(num, f) == SignFor(i, f) && PrefixText(base, f) == PrefixFor(base, f);
    NumeralIs(Abs(i), base, f.small);
    NumberParts(num, base, width, precision, f);
    AssembleIsLayout(SignFor(i, f), PrefixFor(base, f), Numeral(Abs(i), DigitsFor(base, f.small)),
                     ZeroCount(num, base, precision, f), Spare(num, base, width, precision, f), width, precision, f);
  }

  // Reading

  /** Digits are the first characters, as many as the base, in either case; each stands for its position. */
  lemma DigitChars(c: char)
    ensures IsDigitOf(c, 8) <==> c in "01234567"
    ensures IsDigitOf(c, 10) <==> c in "0123456789"
    ensures IsDigitOf(c, 16) <==> c in "0123456789abcdef" || c in "0123456789ABCDEF"
    ensures forall d: nat {:trigger HexDigit(d, true)} {:trigger HexDigit(d, false)} ::
              d < 16 && (c == "0123456789abcdef"[d] || c == "0123456789ABCDEF"[d]) ==> DigitValue(c) == d
  {
  }
}
