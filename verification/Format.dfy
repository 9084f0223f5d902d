/** The format strings of misc/vsnprintf.c, and `vsnprintf` into a buffer of any size. */
module Format {
  import opened Options
  import opened Decimal
  import opened NumberTexts
  import opened Printf

  /** A variadic argument: the 64 bits passed for a number, or a string pointer. */
  datatype Arg = Num(bits: nat) | Text(s: Option<string>)

  /** What `%p` prints, from the format behind it, the argument, width, precision and flags. */
  type PointerText = (string, Arg, int, int, Flags) -> string

  /** A format string ends with a NUL that is not part of it. */
  function At(fmt: string, i: nat): char {
    if i < |fmt| then fmt[i] else '\0'
  }

  predicate IsDigit(c: char) {
    '0' <= c <= '9'
  }

  /** `isalnum` of include/ctype.h, which also knows the letters of Latin-1. */
  predicate IsAlnum(c: char) {
    IsDigit(c) || 'a' <= c <= 'z' || 'A' <= c <= 'Z'
    || (192 <= c as int <= 255 && c as int != 215 && c as int != 247)
  }

  function NumArg(args: seq<Arg>, n: nat): (v: nat)
    ensures v < U64_LIMIT
  {
    if n < |args| && args[n].Num? then args[n].bits % U64_LIMIT else 0
  }

  function TextArg(args: seq<Arg>, n: nat): Option<string> {
    if n < |args| && args[n].Text? then args[n].s else None
  }

  function PointerArg(args: seq<Arg>, n: nat): Arg {
    if n < |args| then args[n] else Num(0)
  }

  /** The low `bits` of `v` as a signed number. */
  function Signed(v: nat, limit: nat): int
    requires limit > 0
  {
    var w := v % limit;
    if w < limit / 2 then w else w - limit
  }

  /** A signed number as the 64 bits that stand for it. */
  function SignExtend(v: nat, limit: nat): (w: nat)
    requires 0 < limit <= U64_LIMIT
    ensures w < U64_LIMIT
  {
    var s := Signed(v, limit);
    if s < 0 then s + U64_LIMIT else s
  }

  // Parsing

  datatype Spec = Spec(flags: Flags, width: int, precision: int, qualifier: char, at: nat, used: nat)

  function ParseFlags(fmt: string, i: nat, f: Flags): (r: (Flags, nat))
    ensures i <= r.1 && (i <= |fmt| ==> r.1 <= |fmt|)
    decreases |fmt| - i
  {
    if i >= |fmt| then (f, i)
    else if fmt[i] == '-' then ParseFlags(fmt, i + 1, f.(left := true))
    else if fmt[i] == '+' then ParseFlags(fmt, i + 1, f.(plus := true))
    else if fmt[i] == ' ' then ParseFlags(fmt, i + 1, f.(space := true))
    else if fmt[i] == '#' then ParseFlags(fmt, i + 1, f.(special := true))
    else if fmt[i] == '0' then ParseFlags(fmt, i + 1, f.(zeropad := true))
    else (f, i)
  }

  /** `skip_atoi` */
  function SkipAtoi(fmt: string, i: nat, v: nat): (r: (nat, nat))
    ensures i <= r.1 && (i <= |fmt| ==> r.1 <= |fmt|)
    decreases |fmt| - i
  {
    if i < |fmt| && IsDigit(fmt[i]) then SkipAtoi(fmt, i + 1, v * 10 + (fmt[i] as int - '0' as int)) else (v, i)
  }

  /** The field width: in the format, or the next argument; a negative one means left-justified. */
  function ParseWidth(fmt: string, args: seq<Arg>, s: Spec): (r: Spec)
    requires s.at <= |fmt|
    ensures s.at <= r.at <= |fmt|
  {
    if IsDigit(At(fmt, s.at)) then
      var (w, i) := SkipAtoi(fmt, s.at, 0);
      s.(width := w, at := i)
    else if At(fmt, s.at) == '*' then
      var w := Signed(NumArg(args, s.used), 0x1_0000_0000);
      s.(width := if w < 0 then -w else w, flags := if w < 0 then s.flags.(left := true) else s.flags,
         at := s.at + 1, used := s.used + 1)
    else s
  }

  function ParsePrecision(fmt: string, args: seq<Arg>, s: Spec): (r: Spec)
    requires s.at <= |fmt|
    ensures s.at <= r.at <= |fmt|
  {
    if At(fmt, s.at) != '.' then s
    else if IsDigit(At(fmt, s.at + 1)) then
      var (p, i) := SkipAtoi(fmt, s.at + 1, 0);
      s.(precision := p, at := i)
    else if At(fmt, s.at + 1) == '*' then
      var p := Signed(NumArg(args, s.used), 0x1_0000_0000);
      s.(precision := if p < 0 then 0 else p, at := s.at + 2, used := s.used + 1)
    else s.(precision := 0, at := s.at + 1)
  }

  function ParseQualifier(fmt: string, s: Spec): (r: Spec)
    requires s.at <= |fmt|
    ensures s.at <= r.at <= |fmt|
  {
    var c := At(fmt, s.at);
    if c == 'l' && At(fmt, s.at + 1) == 'l' then s.(qualifier := 'L', at := s.at + 2)
    else if c == 'h' || c == 'l' || c == 'L' || c == 'Z' || c == 'z' || c == 't' then s.(qualifier := c, at := s.at + 1)
    else s
  }

  /** Everything between `%` and the conversion character. */
  function ParseSpec(fmt: string, i: nat, args: seq<Arg>, n: nat): (r: Spec)
    requires i <= |fmt|
    ensures i <= r.at <= |fmt|
  {
    var (f, j) := ParseFlags(fmt, i, NO_FLAGS);
    ParseQualifier(fmt, ParsePrecision(fmt, args, ParseWidth(fmt, args, Spec(f, -1, -1, '\0', j, n))))
  }

  /** `skip_atoi`, on the format from index `i` on. */
  method TakeNumber(fmt: string, i: nat) returns (v: nat, j: nat)
    requires i <= |fmt|
    ensures (v, j) == SkipAtoi(fmt, i, 0)
  {
    v, j := 0, i;
    while IsDigit(At(fmt, j))
      invariant i <= j <= |fmt| && SkipAtoi(fmt, j, v) == SkipAtoi(fmt, i, 0)
      decreases |fmt| - j
    {
      v := v * 10 + (fmt[j] as int - '0' as int);
      j := j + 1;
    }
  }

  /** The loop over the flags. */
  method TakeFlags(fmt: string, i: nat) returns (f: Flags, j: nat)
    requires i <= |fmt|
    ensures (f, j) == ParseFlags(fmt, i, NO_FLAGS)
  {
    f, j := NO_FLAGS, i;
    while At(fmt, j) in "-+ #0"
      invariant i <= j <= |fmt| && ParseFlags(fmt, j, f) == ParseFlags(fmt, i, NO_FLAGS)
      decreases |fmt| - j
    {
      match fmt[j] {
        case '-' => f := f.(left := true);
        case '+' => f := f.(plus := true);
        case ' ' => f := f.(space := true);
        case '#' => f := f.(special := true);
        case _ => f := f.(zeropad := true);
      }
      j := j + 1;
    }
  }

  /** The part of the format loop between `%` and the conversion character. */
  method TakeSpec(fmt: string, i: nat, args: seq<Arg>, n: nat) returns (s: Spec)
    requires i <= |fmt|
    ensures s == ParseSpec(fmt, i, args, n)
  {
    var f, j := TakeFlags(fmt, i);
    s := Spec(f, -1, -1, '\0', j, n);
    s := TakeWidth(fmt, args, s);
    s := TakePrecision(fmt, args, s);
    s := ParseQualifier(fmt, s);
  }

  method TakeWidth(fmt: string, args: seq<Arg>, s: Spec) returns (r: Spec)
    requires s.at <= |fmt|
    ensures r == ParseWidth(fmt, args, s)
  {
    r := s;
    if IsDigit(At(fmt, s.at)) {
      var w, i := TakeNumber(fmt, s.at);
      r := r.(width := w, at := i);
    } else if At(fmt, s.at) == '*' {
      var w := Signed(NumArg(args, s.used), 0x1_0000_0000);
      r := r.(at := s.at + 1, used := s.used + 1);
      if w < 0 {
        w := -w;
        r := r.(flags := r.flags.(left := true));
      }
      r := r.(width := w);
    }
  }

  method TakePrecision(fmt: string, args: seq<Arg>, s: Spec) returns (r: Spec)
    requires s.at <= |fmt|
    ensures r == ParsePrecision(fmt, args, s)
  {
    r := s;
    if At(fmt, s.at) == '.' {
      var p, i: nat := -1, s.at + 1;
      if IsDigit(At(fmt, i)) {
        p, i := TakeNumber(fmt, i);
      } else if At(fmt, i) == '*' {
        p, i := Signed(NumArg(args, s.used), 0x1_0000_0000), i + 1;
        r := r.(used := s.used + 1);
      }
      if p < 0 {
        p := 0;
      }
      r := r.(precision := p, at := i);
    }
  }

  // Conversions

  predicate IsIntConversion(c: char) {
    c == 'o' || c == 'x' || c == 'X' || c == 'd' || c == 'i' || c == 'u'
  }

  function BaseOf(c: char): nat {
    if c == 'o' then 8 else if c == 'x' || c == 'X' then 16 else 10
  }

  function IntFlags(c: char, f: Flags): Flags {
    if c == 'x' then f.(small := true) else if c == 'd' || c == 'i' then f.(sign := true) else f
  }

  /** The number an integer conversion prints, by its qualifier. */
  function IntValue(s: Spec, c: char, args: seq<Arg>): (v: nat)
    ensures v < U64_LIMIT
  {
    var v := NumArg(args, s.used);
    var signed := c == 'd' || c == 'i';
    if s.qualifier == 'L' || s.qualifier == 'l' || s.qualifier == 'Z' || s.qualifier == 'z' || s.qualifier == 't' then v
    else if s.qualifier == 'h' then (if signed then SignExtend(v, 0x1_0000) else v % 0x1_0000)
    else if signed then SignExtend(v, 0x1_0000_0000) else v % 0x1_0000_0000
  }

  function SkipAlnum(fmt: string, i: nat): (j: nat)
    ensures i <= j && (i <= |fmt| ==> j <= |fmt|)
    decreases |fmt| - i
  {
    if i < |fmt| && IsAlnum(fmt[i]) then SkipAlnum(fmt, i + 1) else i
  }

  /** The text of one conversion; `%n` prints nothing. */
  function ConversionText(fmt: string, s: Spec, args: seq<Arg>, ptr: PointerText): string
    requires s.at <= |fmt|
  {
    var c := At(fmt, s.at);
    if c == 'c' then CharText((NumArg(args, s.used) % 256) as char, s.width, s.flags)
    else if c == 's' then StringText(TextArg(args, s.used), s.width, s.precision, s.flags)
    else if c == 'p' then ptr(fmt[s.at + 1..], PointerArg(args, s.used), s.width, s.precision, s.flags)
    else if c == 'n' then ""
    else if c == '%' then "%"
    else if IsIntConversion(c) then NumberText(IntValue(s, c, args), BaseOf(c), s.width, s.precision, IntFlags(c, s.flags))
    else if s.at < |fmt| then ['%', c]
    else "%"
  }

  /** Where the format goes on behind the conversion; at its end when the conversion is cut off. */
  function AfterConversion(fmt: string, s: Spec): (j: nat)
    requires s.at <= |fmt|
    ensures s.at <= j <= |fmt|
  {
    if s.at == |fmt| then s.at else if fmt[s.at] == 'p' then SkipAlnum(fmt, s.at + 1) else s.at + 1
  }

  function UsedAfter(fmt: string, s: Spec): nat {
    var c := At(fmt, s.at);
    if c == 'c' || c == 's' || c == 'p' || c == 'n' || IsIntConversion(c) then s.used + 1 else s.used
  }

  /** The whole output of a format, from index `i` on. */
  function FormatText(fmt: string, i: nat, args: seq<Arg>, n: nat, ptr: PointerText): string
    requires i <= |fmt|
    decreases |fmt| - i
  {
    if i == |fmt| then ""
    else if fmt[i] != '%' then [fmt[i]] + FormatText(fmt, i + 1, args, n, ptr)
    else
      var s := ParseSpec(fmt, i + 1, args, n);
      ConversionText(fmt, s, args, ptr) + FormatText(fmt, AfterConversion(fmt, s), args, UsedAfter(fmt, s), ptr)
  }

  /** The text of one conversion, printed. */
  method Convert(o: Output, fmt: string, s: Spec, args: seq<Arg>, ptr: PointerText)
    requires o.Valid() && s.at <= |fmt|
    modifies o`str, o`out, o.buf
    ensures o.Valid() && o.out == old(o.out) + ConversionText(fmt, s, args, ptr)
  {
    var c := At(fmt, s.at);
    if c == 'c' {
      o.Char((NumArg(args, s.used) % 256) as char, s.width, s.flags);
    } else if c == 's' {
      o.String(TextArg(args, s.used), s.width, s.precision, s.flags);
    } else if c == 'p' {
      o.AddText(ptr(fmt[s.at + 1..], PointerArg(args, s.used), s.width, s.precision, s.flags));
    } else if c == 'n' {
      Assoc(o.out, "", "");
    } else if c == '%' {
      o.AddCh('%');
    } else if IsIntConversion(c) {
      o.Number(IntValue(s, c, args), BaseOf(c), s.width, s.precision, IntFlags(c, s.flags));
    } else {
      o.AddCh('%');
      if s.at < |fmt| {
        Assoc(o.out, ['%'], [c]);
        o.AddCh(c);
      }
    }
  }

  /** Skips the conversion, with the letters and digits behind `%p`. */
  method SkipConversion(fmt: string, s: Spec) returns (j: nat)
    requires s.at <= |fmt|
    ensures j == AfterConversion(fmt, s)
  {
    j := s.at;
    if j < |fmt| {
      j := j + 1;
      if fmt[s.at] == 'p' {
        while IsAlnum(At(fmt, j))
          invariant s.at < j <= |fmt| && SkipAlnum(fmt, j) == SkipAlnum(fmt, s.at + 1)
          decreases |fmt| - j
        {
          j := j + 1;
        }
      }
    }
  }

  /** The format loop of `vsnprintf_internal`. */
  method FormatInto(o: Output, fmt: string, args: seq<Arg>, ptr: PointerText)
    requires o.Valid()
    modifies o`str, o`out, o.buf
    ensures o.Valid() && o.out == old(o.out) + FormatText(fmt, 0, args, 0, ptr)
  {
    var i, n := 0, 0;
    while i < |fmt|
      invariant i <= |fmt| && o.Valid()
      invariant o.out + FormatText(fmt, i, args, n, ptr) == old(o.out) + FormatText(fmt, 0, args, 0, ptr)
      decreases |fmt| - i
    {
      ghost var was := o.out;
      if fmt[i] != '%' {
        Assoc(was, [fmt[i]], FormatText(fmt, i + 1, args, n, ptr));
        o.AddCh(fmt[i]);
        i := i + 1;
      } else {
        var s := TakeSpec(fmt, i + 1, args, n);
        ghost var rest := FormatText(fmt, AfterConversion(fmt, s), args, UsedAfter(fmt, s), ptr);
        Assoc(was, ConversionText(fmt, s, args, ptr), rest);
        Convert(o, fmt, s, args, ptr);
        i := SkipConversion(fmt, s);
        n := UsedAfter(fmt, s);
      }
    }
    Assoc(o.out, "", "");
  }

  /**
   `vsnprintf`: the count is that of the whole output, whatever the size; the buffer holds as much of
   the output as leaves room for a NUL, the NUL, and from there on what it held before.
   */
  method Vsnprintf(buf: array<char>, size: nat, fmt: string, args: seq<Arg>, ptr: PointerText) returns (count: nat)
    requires size <= buf.Length
    modifies buf
    ensures var text := FormatText(fmt, 0, args, 0, ptr); var kept := Min(|text|, if size == 0 then 0 else size - 1);
            && count == |text|
            && (size == 0 ==> buf[..] == old(buf[..]))
            && (size > 0 ==>
              && buf[..kept] == text[..kept] && buf[kept] == '\0'
              && buf[kept + 1..] == old(buf[kept + 1..]))
  {
    var o := new Output(buf, size);
    FormatInto(o, fmt, args, ptr);
    ghost var text := o.out;
    Assoc([], FormatText(fmt, 0, args, 0, ptr), []);
    assert text == FormatText(fmt, 0, args, 0, ptr);
    count := o.str;
    if size > 0 {
      o.AddCh('\0');
      ghost var m := Min(o.str, size);
      assert buf[..m] == (text + ['\0'])[..m];
      assert buf[..m - 1] == buf[..m][..m - 1] == text[..m - 1];
      if o.str > size {
        buf[size - 1] := '\0';
      } else {
        assert buf[..m][m - 1] == '\0';
      }
      count := o.str - 1;
    }
  }
}
