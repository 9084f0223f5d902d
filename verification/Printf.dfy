/**
 Printing into a buffer of limited size: `ADDCH`, `number`, `string` and `vsnprintf_internal` of
 misc/vsnprintf.c. What would be printed is always printed as far as it fits, and counted in full.
 */
module Printf {
  import opened Options
  import opened Decimal
  import opened NumberTexts

  function Min(a: nat, b: nat): nat {
    if a < b then a else b
  }

  /** The cursor `str` over the first `size` characters of `buf`. */
  class Output {
    const buf: array<char>
    const size: nat
    var str: nat

    /** everything printed so far, and what the buffer held before */
    ghost var out: string
    ghost const initial: string

    constructor (buf: array<char>, size: nat)
      requires size <= buf.Length
      ensures Valid() && this.buf == buf && this.size == size && out == [] && initial == old(buf[..])
    {
      this.buf, this.size, str := buf, size, 0;
      out, initial := [], buf[..];
    }

    /** The buffer holds as much of the output as fits; the rest of it is as before. */
    ghost predicate Valid()
      reads this, buf
    {
      && size <= buf.Length == |initial| && str == |out|
      && buf[..Min(str, size)] == out[..Min(str, size)]
      && buf[Min(str, size)..] == initial[Min(str, size)..]
    }

    /** `ADDCH` */
    method AddCh(ch: char)
      requires Valid()
      modifies this`str, this`out, buf
      ensures Valid() && out == old(out) + [ch]
    {
      ghost var was := out;
      if str < size {
        buf[str] := ch;
        assert buf[..str + 1] == (was + [ch])[..str + 1];
        assert buf[str + 1..] == initial[str..][1..];
      } else {
        assert (was + [ch])[..size] == was[..size];
      }
      str := str + 1;
      out := out + [ch];
    }

    /** `while (--n >= 0) ADDCH(c)`; returns what is left in `n`. */
    method Pad(c: char, n: int) returns (left: int)
      requires Valid()
      modifies this`str, this`out, buf
      ensures Valid() && out == old(out) + Repeat(c, n)
      ensures left < 0
    {
      left := n - 1;
      while left >= 0
        invariant Valid() && out + Repeat(c, left + 1) == old(out) + Repeat(c, n)
        decreases left
      {
        AddCh(c);
        left := left - 1;
      }
    }

    /** A run of characters one by one. */
    method AddText(t: string)
      requires Valid()
      modifies this`str, this`out, buf
      ensures Valid() && out == old(out) + t
    {
      var i := 0;
      while i < |t|
        invariant i <= |t| && Valid() && out == old(out) + t[..i]
      {
        AddCh(t[i]);
        i := i + 1;
      }
    }

    /** `string` */
    method String(s: Option<string>, width: int, precision: int, f: Flags)
      requires Valid()
      modifies this`str, this`out, buf
      ensures Valid() && out == old(out) + StringText(s, width, precision, f)
    {
      var t := match s case None => "<NULL>" case Some(t) => t;
      var len := if 0 <= precision < |t| then precision else |t|;
      hide StringText, Repeat;
      StringTextIs(s, width, precision, f, t, len);
      ghost var start, blanks := out, Repeat(' ', width - len);
      var left := width - len;
      if !f.left {
        left := Pad(' ', left);
      }
      AddText(t[..len]);
      left := Pad(' ', left);
      assert !f.left ==> Repeat(' ', left) == [];
      Assoc(start, t[..len], blanks);
      Assoc(start, blanks, t[..len]);
    }

    /** The conversion `%c`. */
    method Char(c: char, width: int, f: Flags)
      requires Valid()
      modifies this`str, this`out, buf
      ensures Valid() && out == old(out) + CharText(c, width, f)
    {
      ghost var start, blanks := out, Repeat(' ', width - 1);
      var left := width - 1;
      if !f.left {
        left := Pad(' ', left);
      }
      AddCh(c);
      left := Pad(' ', left);
      Assoc(start, [c], blanks);
      Assoc(start, blanks, [c]);
    }

    /** `number` */
    method Number(num: nat, base: nat, width: int, precision: int, f: Flags)
      requires Valid() && num < U64_LIMIT && (base == 8 || base == 10 || base == 16)
      modifies this`str, this`out, buf
      ensures Valid() && out == old(out) + NumberText(num, base, width, precision, f)
    {
      hide NumberText, Assemble, Reversed, DigitsOf, HeadText;
      var tmp := new char[66];
      var n, size_, sign := num, width, "";
      if f.sign {
        if num >= S64_LIMIT {
          sign := "-";
          n := U64_LIMIT - num;
          size_ := size_ - 1;
        } else if f.plus {
          sign := "+";
          size_ := size_ - 1;
        } else if f.space {
          sign := " ";
          size_ := size_ - 1;
        }
      }
      var needPfx := f.special && base != 10;
      if needPfx {
        size_ := size_ - 1;
        if base == 16 {
          size_ := size_ - 1;
        }
      }
      var i := FillDigits(tmp, n, base, f.small);
      var prec := if i > precision then i else precision;
      size_ := size_ - prec;
      HeadParts(num, base, f);
      ghost var digits := Reversed(tmp[..i]);
      NumberTextIs(num, base, width, precision, f, digits, prec - i, size_);
      PrintParts(sign, needPfx, base, tmp, i, prec - i, size_, f);
    }

    /** The printing part of `number`. */
    method PrintParts(sign: string, needPfx: bool, base: nat, tmp: array<char>, i: nat, zeros: int, pad: int, f: Flags)
      requires Valid() && |sign| <= 1 && i <= tmp.Length && tmp != buf
      modifies this`str, this`out, buf
      ensures Valid()
      ensures out == old(out) + Assemble(HeadText(sign, needPfx, base, f.small), Reversed(old(tmp[..i])), zeros, pad, f)
    {
      ghost var start, digits, head := out, Reversed(tmp[..i]), HeadText(sign, needPfx, base, f.small);
      ghost var t := if f.left || f.zeropad then "" else Repeat(' ', pad);
      ghost var middle := if f.zeropad && !f.left then Repeat('0', pad) else "";
      ghost var after := if f.left then Repeat(' ', pad) else "";
      var left := pad;
      if !f.zeropad && !f.left {
        left := Pad(' ', left);
      }
      AddHead(sign, needPfx, base, f.small);
      Assoc(start, t, head);
      t := t + head;
      if !f.left {
        left := Pad(if f.zeropad then '0' else ' ', left);
      }
      Assoc(start, t, middle);
      t := t + middle;
      var none := Pad('0', zeros);
      Assoc(start, t, Repeat('0', zeros));
      t := t + Repeat('0', zeros);
      AddDigits(tmp, i);
      Assoc(start, t, digits);
      t := t + digits;
      left := Pad(' ', left);
      Assoc(start, t, after);
    }

    /** Sign and prefix. */
    method AddHead(sign: string, needPfx: bool, base: nat, small: bool)
      requires Valid() && |sign| <= 1
      modifies this`str, this`out, buf
      ensures Valid()
      ensures out == old(out) + HeadText(sign, needPfx, base, small)
    {
      if sign != "" {
        AddCh(sign[0]);
      }
      if needPfx {
        AddCh('0');
        if base == 16 {
          AddCh(if small then 'x' else 'X');
        }
      }
    }

    /** The digits into `tmp`, in reverse order. */
    method FillDigits(tmp: array<char>, num: nat, base: nat, small: bool) returns (i: nat)
      requires tmp.Length == 66 && num < U64_LIMIT && (base == 8 || base == 10 || base == 16)
      modifies tmp
      ensures i <= 66 && tmp[..i] == DigitsOf(num, base, small)
    {
      i := 0;
      if num == 0 {
        tmp[0] := '0';
        i := 1;
      } else if base != 10 {
        i := FillPowerDigits(tmp, num, base, small);
      } else {
        i := PutDec(tmp, 0, num);
      }
    }

    method FillPowerDigits(tmp: array<char>, num: nat, base: nat, small: bool) returns (i: nat)
      requires tmp.Length == 66 && 0 < num < U64_LIMIT && (base == 8 || base == 16)
      modifies tmp
      ensures i <= 66 && tmp[..i] == PowerDigitsLsb(num, base, small)
    {
      hide PowerDigitsLsb, HexDigit, Pow8;
      i := 0;
      var n: nat := num;
      ghost var goal := PowerDigitsLsb(num, base, small);
      assert tmp[..0] + goal == goal;
      PowerOfEightSuffices();
      PowerDigitsFit(num, base, small, 22);
      while n != 0
        invariant i <= |goal| <= 22
        invariant if n == 0 then tmp[..i] == goal else tmp[..i] + PowerDigitsLsb(n, base, small) == goal
        decreases n
      {
        PowerDigitsStep(n, base, small);
        assert i < |goal|;
        ghost var s := tmp[..i];
        tmp[i] := HexDigit(n % base, small);
        assert tmp[..i + 1] == s + [HexDigit(n % base, small)];
        Assoc(s, [HexDigit(n % base, small)], PowerDigitsLsb(n / base, base, small));
        Shrinks(n, base);
        n := n / base;
        i := i + 1;
      }
    }

    /** The digits out of `tmp`, in reverse order. */
    method AddDigits(tmp: array<char>, n: nat)
      requires Valid() && n <= tmp.Length && tmp != buf
      modifies this`str, this`out, buf
      ensures Valid() && out == old(out) + Reversed(tmp[..n])
    {
      var i: nat := n;
      assert tmp[..0] == [];
      while i > 0
        invariant i <= n && Valid() && out + Reversed(tmp[..i]) == old(out) + Reversed(tmp[..n])
      {
        i := i - 1;
        ReversedSnoc(tmp[..i + 1]);
        assert tmp[..i + 1][..i] == tmp[..i];
        AddCh(tmp[i]);
      }
    }
  }

  function Justified(t: string, blanks: string, left: bool): string {
    if left then t + blanks else blanks + t
  }

  lemma StringTextIs(s: Option<string>, width: int, precision: int, f: Flags, t: string, len: nat)
    requires t == match s case None => "<NULL>" case Some(t) => t
    requires len == if 0 <= precision < |t| then precision else |t|
    ensures StringText(s, width, precision, f) == Justified(t[..len], Repeat(' ', width - len), f.left)
  {
    assert t[..|t|] == t;
  }

  lemma HeadParts(num: nat, base: nat, f: Flags)
    ensures HeadText(SignText(num, f), f.special && base != 10, base, f.small) == SignText(num, f) + PrefixText(base, f)
    ensures |SignText(num, f) + PrefixText(base, f)|
            == (if SignText(num, f) == "" then 0 else 1) + (if !f.special || base == 10 then 0 else if base == 16 then 2 else 1)
  {
  }

  lemma NumberTextIs(num: nat, base: nat, width: int, precision: int, f: Flags, digits: string, zeros: int, pad: int)
    requires base == 8 || base == 10 || base == 16
    requires digits == Reversed(DigitsOf(Magnitude(num, f), base, f.small))
    requires zeros == (if precision > |digits| then precision - |digits| else 0)
    requires pad == width - |SignText(num, f) + PrefixText(base, f)| - zeros - |digits|
    ensures NumberText(num, base, width, precision, f)
            == Assemble(HeadText(SignText(num, f), f.special && base != 10, base, f.small), digits, zeros, pad, f)
  {
    HeadParts(num, base, f);
  }

  lemma Assoc(a: string, b: string, c: string)
    ensures a + b + c == a + (b + c)
    ensures b == [] ==> a + b == a
    ensures c == [] ==> a + b + c == a + b
  {
  }

  function HeadText(sign: string, needPfx: bool, base: nat, small: bool): string {
    sign + if !needPfx then "" else if base == 16 then ['0', if small then 'x' else 'X'] else "0"
  }

  lemma {:induction false} ReversedSnoc(s: string)
    requires s != []
    ensures Reversed(s) == [s[|s| - 1]] + Reversed(s[..|s| - 1])
  {
    hide Reversed;
    var t := [s[|s| - 1]] + Reversed(s[..|s| - 1]);
    forall k | 0 <= k < |s|
      ensures Reversed(s)[k] == t[k]
    {
    }
  }

  lemma PowerDigitsStep(n: nat, base: nat, small: bool)
    requires base == 8 || base == 16
    ensures PowerDigitsLsb(n, base, small)
         == [HexDigit(n % base, small)] + if n / base == 0 then [] else PowerDigitsLsb(n / base, base, small)
  {
    hide HexDigit;
    if n < base {
      assert n % base == n && n / base == 0;
    } else {
      assert n / base >= 1;
    }
  }

  function Pow8(k: nat): nat {
    if k == 0 then 1 else 8 * Pow8(k - 1)
  }

  lemma PowerOfEightSuffices()
    ensures U64_LIMIT <= Pow8(22)
  {
    assert Pow8(5) == 0x8000;
    assert Pow8(10) == 0x4000_0000;
    assert Pow8(15) == 0x2000_0000_0000;
    assert Pow8(20) == 0x1000_0000_0000_0000;
  }

  lemma Shrinks(n: nat, base: nat)
    requires base == 8 || base == 16
    ensures n / base <= n / 8 && (n > 0 ==> n / base < n)
  {
  }

  /** A number below a power of eight has no more octal, let alone hexadecimal, digits. */
  lemma {:induction false} PowerDigitsFit(n: nat, base: nat, small: bool, k: nat)
    requires (base == 8 || base == 16) && k > 0 && n < Pow8(k)
    ensures |PowerDigitsLsb(n, base, small)| <= k
  {
    if n >= base {
      Shrinks(n, base);
      PowerDigitsFit(n / base, base, small, k - 1);
    }
  }
}
