/** What the conversions of misc/vsnprintf.c print, as strings of any length. */
module NumberTexts {
  import opened Options
  import opened Decimal

  const S64_LIMIT := 0x8000_0000_0000_0000

  /** The flag bits of a conversion. */
  datatype Flags = Flags(zeropad: bool, sign: bool, plus: bool, space: bool, left: bool, small: bool, special: bool)

  const NO_FLAGS := Flags(false, false, false, false, false, false, false)

  function Repeat(c: char, n: int): (s: string)
    ensures |s| == if n < 0 then 0 else n
    ensures forall k {:trigger s[k]} :: 0 <= k < |s| ==> s[k] == c
  {
    if n <= 0 then [] else [c] + Repeat(c, n - 1)
  }

  function HexDigit(d: nat, small: bool): (c: char)
    requires d < 16
  {
    if d < 10 then Digit(d) else if small then 'a' + (d - 10) as char else 'A' + (d - 10) as char
  }

  /** The digits of `n` in base 8 or 16, least significant first. */
  function PowerDigitsLsb(n: nat, base: nat, small: bool): (s: string)
    requires base == 8 || base == 16
    ensures s != []
  {
    if n < base then [HexDigit(n, small)] else [HexDigit(n % base, small)] + PowerDigitsLsb(n / base, base, small)
  }

  function DigitsOf(n: nat, base: nat, small: bool): (s: string)
    requires base == 8 || base == 10 || base == 16
    ensures s != []
  {
    if base == 10 then DigitsLsb(n) else PowerDigitsLsb(n, base, small)
  }

  predicate IsNegative(num: nat, f: Flags) {
    f.sign && S64_LIMIT <= num < U64_LIMIT
  }

  function Magnitude(num: nat, f: Flags): nat {
    if IsNegative(num, f) then U64_LIMIT - num else num
  }

  function SignText(num: nat, f: Flags): string {
    if IsNegative(num, f) then "-" else if f.sign && f.plus then "+" else if f.sign && f.space then " " else ""
  }

  function PrefixText(base: nat, f: Flags): string {
    if !f.special || base == 10 then "" else if base == 16 then ['0', if f.small then 'x' else 'X'] else "0"
  }

  /** Head and digits, with blanks on the left or right or zeros in between as padding. */
  function Assemble(head: string, digits: string, zeros: int, pad: int, f: Flags): string {
    (if f.left || f.zeropad then "" else Repeat(' ', pad))
    + head
    + (if f.zeropad && !f.left then Repeat('0', pad) else "")
    + Repeat('0', zeros)
    + digits
    + (if f.left then Repeat(' ', pad) else "")
  }

  /** `number`: sign, prefix and at least `precision` digits, padded to `width`. */
  function NumberText(num: nat, base: nat, width: int, precision: int, f: Flags): string
    requires base == 8 || base == 10 || base == 16
  {
    var digits := Reversed(DigitsOf(Magnitude(num, f), base, f.small));
    var zeros := if precision > |digits| then precision - |digits| else 0;
    var head := SignText(num, f) + PrefixText(base, f);
    Assemble(head, digits, zeros, width - |head| - zeros - |digits|, f)
  }

  /** `string`: at most `precision` characters unless it is negative, padded to `width`. */
  function StringText(s: Option<string>, width: int, precision: int, f: Flags): string {
    var t := match s case None => "<NULL>" case Some(t) => t;
    var u := if 0 <= precision < |t| then t[..precision] else t;
    if f.left then u + Repeat(' ', width - |u|) else Repeat(' ', width - |u|) + u
  }

  /** The conversion `%c`. */
  function CharText(c: char, width: int, f: Flags): string {
    if f.left then [c] + Repeat(' ', width - 1) else Repeat(' ', width - 1) + [c]
  }
}
