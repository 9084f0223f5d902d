/** Every conversion that can be written in a format is read as what it says, and prints what it was passed. */
module FormatSpecs {
  import opened Options
  import Decimal
  import opened NumberTexts
  import opened Format
  import opened RoundTrips
  import opened Conversions

  /** A width or a precision: left out, a dot alone, written as a number, or taken from the arguments. */
  datatype Field = Absent | Dot | Given(n: nat) | Star(i: int) {
    function Taken(): nat {
      if Star? then 1 else 0
    }
  }

  function DecText(n: nat): string {
    Numeral(n, "0123456789")
  }

  function WidthChars(w: Field): string {
    match w case Given(n) => DecText(n) case Star(_) => "*" case _ => ""
  }

  function PrecisionChars(p: Field): string {
    match p case Absent => "" case Dot => "." case Given(n) => "." + DecText(n) case Star(_) => ".*"
  }

  predicate AreFlags(t: string) {
    forall k {:trigger t[k]} :: 0 <= k < |t| ==> t[k] in "-+ #0"
  }

  predicate IsQualifier(q: string) {
    q == "" || q == "h" || q == "l" || q == "ll" || q == "L" || q == "Z" || q == "z" || q == "t"
  }

  /** A character that ends a specification, known as a conversion or not. */
  predicate IsConversion(c: char) {
    && c != '-' && c != '+' && c != ' ' && c != '#' && !('0' <= c <= '9') && c != '*' && c != '.'
    && c != 'h' && c != 'l' && c != 'L' && c != 'Z' && c != 'z' && c != 't'
  }

  predicate TakesArgument(c: char) {
    c == 'd' || c == 'i' || c == 'o' || c == 'u' || c == 'x' || c == 'X' || c == 'c' || c == 's' || c == 'p' || c == 'n'
  }

  /** What stands between the percent sign and the rest of the format; a width does not begin with 0, which is a flag. */
  function SpecChars(flags: string, w: Field, p: Field, q: string, c: char): string {
    flags + (WidthChars(w) + (PrecisionChars(p) + (q + [c])))
  }

  predicate IsSpec(flags: string, w: Field, p: Field, q: string, c: char) {
    AreFlags(flags) && IsQualifier(q) && IsConversion(c) && !w.Dot? && (w.Given? ==> w.n > 0)
  }

  /** The argument is the `int` that the field says. */
  predicate PassesField(d: Field, args: seq<Arg>, n: nat) {
    d.Star? ==>
      && n < |args| && args[n].Num? && -0x8000_0000 <= d.i < 0x8000_0000
      && args[n].bits % 0x1_0000_0000 == d.i % 0x1_0000_0000
  }

  /** What such a conversion means. */
  function MeantSpec(flags: string, w: Field, p: Field, q: string, at: nat, n: nat): (s: Spec)
    ensures s.at == at && s.used == n + w.Taken() + p.Taken()
  {
    Spec(Flags('0' in flags, false, '+' in flags, ' ' in flags, '-' in flags || (w.Star? && w.i < 0), false, '#' in flags),
         (match w case Given(k) => k case Star(i) => Abs(i) case _ => -1),
         (match p case Absent => -1 case Dot => 0 case Given(k) => k case Star(i) => if i < 0 then 0 else i),
         (if q == "" then '\0' else if q == "ll" then 'L' else q[0]), at, n + w.Taken() + p.Taken())
  }

  lemma Behind(fmt: string, i: nat, a: string, r: string)
    requires i <= |fmt| && fmt[i..] == a + r
    ensures i + |a| <= |fmt| && fmt[i + |a|..] == r
    ensures a != [] ==> At(fmt, i) == a[0]
    ensures a == [] && r != [] ==> At(fmt, i) == r[0]
    ensures r != [] ==> At(fmt, i + |a|) == r[0]
  {
    assert fmt[i + |a|..] == fmt[i..][|a|..] == r;
    assert a != [] ==> fmt[i] == fmt[i..][0];
    assert r != [] ==> fmt[i + |a|] == fmt[i + |a|..][0];
  }

  // Flags

  function WithFlags(f: Flags, t: string): Flags {
    Flags(f.zeropad || '0' in t, f.sign, f.plus || '+' in t, f.space || ' ' in t, f.left || '-' in t, f.small,
          f.special || '#' in t)
  }

  lemma OneFlag(fmt: string, i: nat, f: Flags)
    requires i < |fmt| && fmt[i] in "-+ #0"
    ensures ParseFlags(fmt, i, f) == ParseFlags(fmt, i + 1, WithFlags(f, [fmt[i]]))
  {
  }

  lemma NoFlag(fmt: string, i: nat, f: Flags)
    requires At(fmt, i) !in "-+ #0"
    ensures ParseFlags(fmt, i, f) == (f, i)
  {
  }

  lemma FlagsJoin(f: Flags, c: char, rest: string)
    ensures WithFlags(WithFlags(f, [c]), rest) == WithFlags(f, [c] + rest)
    ensures WithFlags(f, []) == f
  {
  }

  lemma {:induction false} FlagsAreRead(fmt: string, i: nat, t: string, r: string, f: Flags)
    requires i <= |fmt| && fmt[i..] == t + r && AreFlags(t) && r != [] && r[0] !in "-+ #0"
    ensures ParseFlags(fmt, i, f) == (WithFlags(f, t), i + |t|)
    ensures i + |t| <= |fmt| && fmt[i + |t|..] == r
    decreases |t|
  {
    hide ParseFlags, WithFlags;
    Behind(fmt, i, t, r);
    if t == [] {
      NoFlag(fmt, i, f);
      FlagsJoin(f, '0', []);
    } else {
      var rest := t[1..];
      assert t == [t[0]] + rest;
      assert t + r == [t[0]] + (rest + r);
      Behind(fmt, i, [t[0]], rest + r);
      OneFlag(fmt, i, f);
      FlagsAreRead(fmt, i + 1, rest, r, WithFlags(f, [t[0]]));
      FlagsJoin(f, t[0], rest);
    }
  }

  // Numbers

  function DigitsFrom(t: string, v: nat): nat
    requires AreDigits(t)
  {
    if t == [] then v else DigitsFrom(t[..|t| - 1], v) * 10 + (t[|t| - 1] as int - '0' as int)
  }

  predicate AreDigits(t: string) {
    forall k {:trigger t[k]} :: 0 <= k < |t| ==> IsDigit(t[k])
  }

  lemma {:induction false} DigitsFromFront(t: string, v: nat)
    requires AreDigits(t) && t != []
    ensures DigitsFrom(t, v) == DigitsFrom(t[1..], v * 10 + (t[0] as int - '0' as int))
    decreases |t|
  {
    var front := t[..|t| - 1];
    if front == [] {
      assert t[1..] == [];
    } else {
      DigitsFromFront(front, v);
      assert t[1..][..|t[1..]| - 1] == front[1..];
    }
  }

  lemma {:induction false} DigitsAreSkipped(fmt: string, i: nat, t: string, r: string, v: nat)
    requires i <= |fmt| && fmt[i..] == t + r && AreDigits(t) && r != [] && !IsDigit(r[0])
    ensures SkipAtoi(fmt, i, v) == (DigitsFrom(t, v), i + |t|)
    decreases |t|
  {
    Behind(fmt, i, t, r);
    if t != [] {
      var rest := t[1..];
      assert t + r == [t[0]] + (rest + r);
      Behind(fmt, i, [t[0]], rest + r);
      DigitsFromFront(t, v);
      DigitsAreSkipped(fmt, i + 1, rest, r, v * 10 + (t[0] as int - '0' as int));
    }
  }

  lemma {:induction false} DecimalDigits(n: nat)
    ensures AreDigits(DecText(n)) && DigitsFrom(DecText(n), 0) == n && (n > 0 ==> DecText(n)[0] != '0')
  {
    var d := "0123456789"[n % 10];
    assert IsDigit(d) && d as int - '0' as int == n % 10;
    if n >= 10 {
      DecimalDigits(n / 10);
      assert DecText(n) == DecText(n / 10) + [d];
      assert DecText(n)[..|DecText(n)| - 1] == DecText(n / 10);
    } else {
      assert DecText(n) == [d];
      assert [d][..0] == [];
    }
  }

  lemma NumberIsSkipped(fmt: string, i: nat, n: nat, r: string)
    requires i <= |fmt| && fmt[i..] == DecText(n) + r && r != [] && !IsDigit(r[0])
    ensures SkipAtoi(fmt, i, 0) == (n, i + |DecText(n)|) && IsDigit(At(fmt, i))
  {
    DecimalDigits(n);
    Behind(fmt, i, DecText(n), r);
    DigitsAreSkipped(fmt, i, DecText(n), r, 0);
  }

  // Width, precision, qualifier

  lemma IntArgument(args: seq<Arg>, n: nat, i: int)
    requires PassesField(Star(i), args, n)
    ensures Signed(NumArg(args, n), 0x1_0000_0000) == i
  {
    ModMod(args[n].bits, 0x1_0000_0000);
  }

  lemma ModMod(bits: nat, limit: nat)
    requires limit == 0x1_0000 || limit == 0x1_0000_0000 || limit == 0x1_0000_0000_0000_0000
    ensures bits % 0x1_0000_0000_0000_0000 % limit == bits % limit
  {
    var q, r := bits / 0x1_0000_0000_0000_0000, bits % 0x1_0000_0000_0000_0000;
    if limit == 0x1_0000 {
      Decimal.Unique(bits, 0x1_0000, 0x1_0000_0000_0000 * q + r / 0x1_0000, r % 0x1_0000);
    } else if limit == 0x1_0000_0000 {
      Decimal.Unique(bits, 0x1_0000_0000, 0x1_0000_0000 * q + r / 0x1_0000_0000, r % 0x1_0000_0000);
    }
  }

  /** The spec behind its width, its precision, and its qualifier. */
  function AfterWidth(s: Spec, w: Field): (r: Spec)
    ensures r.at == s.at + |WidthChars(w)| && r.used == s.used + w.Taken()
    ensures r.precision == s.precision && r.qualifier == s.qualifier
  {
    s.(width := (match w case Given(k) => k case Star(i) => Abs(i) case _ => s.width),
       flags := (if w.Star? && w.i < 0 then s.flags.(left := true) else s.flags),
       at := s.at + |WidthChars(w)|, used := s.used + w.Taken())
  }

  function AfterPrecision(s: Spec, p: Field): (r: Spec)
    ensures r.at == s.at + |PrecisionChars(p)| && r.used == s.used + p.Taken() && r.qualifier == s.qualifier
  {
    s.(precision := (match p case Absent => s.precision case Dot => 0 case Given(k) => k case Star(i) => if i < 0 then 0 else i),
       at := s.at + |PrecisionChars(p)|, used := s.used + p.Taken())
  }

  function AfterQualifier(s: Spec, q: string): (r: Spec)
    ensures r.at == s.at + |q|
  {
    s.(qualifier := (if q == "" then s.qualifier else if q == "ll" then 'L' else q[0]), at := s.at + |q|)
  }

  lemma WidthIsRead(fmt: string, args: seq<Arg>, s: Spec, w: Field, r: string)
    requires s.at <= |fmt| && fmt[s.at..] == WidthChars(w) + r && r != [] && !IsDigit(r[0]) && r[0] != '*'
    requires PassesField(w, args, s.used) && !w.Dot?
    ensures ParseWidth(fmt, args, s) == AfterWidth(s, w)
    ensures s.at + |WidthChars(w)| <= |fmt| && fmt[s.at + |WidthChars(w)|..] == r
  {
    hide DecText, SkipAtoi;
    Behind(fmt, s.at, WidthChars(w), r);
    match w
    case Absent =>
    case Given(n) => NumberIsSkipped(fmt, s.at, n, r);
    case Star(i) => IntArgument(args, s.used, i);
  }

  lemma PrecisionIsRead(fmt: string, args: seq<Arg>, s: Spec, p: Field, r: string)
    requires s.at <= |fmt| && fmt[s.at..] == PrecisionChars(p) + r && r != [] && !IsDigit(r[0]) && r[0] != '.'
    requires PassesField(p, args, s.used) && (p.Dot? ==> r[0] != '*')
    ensures ParsePrecision(fmt, args, s) == AfterPrecision(s, p)
    ensures s.at + |PrecisionChars(p)| <= |fmt| && fmt[s.at + |PrecisionChars(p)|..] == r
  {
    hide DecText, SkipAtoi, Signed, NumArg, PassesField;
    Behind(fmt, s.at, PrecisionChars(p), r);
    match p
    case Absent =>
    case Dot => Behind(fmt, s.at, ".", r);
    case Given(n) =>
      assert PrecisionChars(p) + r == "." + (DecText(n) + r);
      Behind(fmt, s.at, ".", DecText(n) + r);
      NumberIsSkipped(fmt, s.at + 1, n, r);
    case Star(i) =>
      assert PrecisionChars(p) + r == "." + ("*" + r);
      Behind(fmt, s.at, ".", "*" + r);
      IntArgument(args, s.used, i);
  }

  lemma QualifierIsRead(fmt: string, s: Spec, q: string, r: string)
    requires s.at <= |fmt| && fmt[s.at..] == q + r && IsQualifier(q) && r != [] && IsConversion(r[0])
    ensures ParseQualifier(fmt, s) == AfterQualifier(s, q)
    ensures s.at + |q| < |fmt| && fmt[s.at + |q|] == r[0] && fmt[s.at + |q| + 1..] == r[1..]
  {
    Behind(fmt, s.at, q, r);
    if q == "ll" {
      assert q + r == "l" + ("l" + r);
      Behind(fmt, s.at, "l", "l" + r);
    }
  }

  lemma FirstOfQualifier(q: string, c: char)
    requires IsQualifier(q) && IsConversion(c)
    ensures var d := (q + [c])[0]; d !in "-+ #0.*" && !IsDigit(d)
  {
    assert q == "" ==> (q + [c])[0] == c;
    assert q != "" ==> (q + [c])[0] == q[0];
  }

  lemma FirstChars(w: Field, p: Field, q: string, c: char)
    requires IsQualifier(q) && IsConversion(c) && !w.Dot? && (w.Given? ==> w.n > 0)
    ensures var r := PrecisionChars(p) + (q + [c]);
         && (q + [c])[0] !in "-+ #0.*" && !IsDigit((q + [c])[0])
         && r[0] !in "-+ #0*" && !IsDigit(r[0])
         && (WidthChars(w) + r)[0] !in "-+ #0"
  {
    FirstOfQualifier(q, c);
    hide IsQualifier, IsConversion;
    if w.Given? {
      DecimalDigits(w.n);
      hide DecText;
      assert IsDigit(DecText(w.n)[0]);
    }
  }

  lemma EndsInTurn(fmt: string, args: seq<Arg>, s: Spec, p: Field, q: string, r2: string, r3: string)
    requires s.at <= |fmt| && fmt[s.at..] == PrecisionChars(p) + r2 && r2 == q + r3 && PassesField(p, args, s.used)
    requires IsQualifier(q) && r2 != [] && r3 != [] && IsConversion(r3[0]) && !IsDigit(r2[0]) && r2[0] != '.' && r2[0] != '*'
    ensures var t := AfterQualifier(AfterPrecision(s, p), q);
         && ParseQualifier(fmt, ParsePrecision(fmt, args, s)) == t
         && t.at < |fmt| && fmt[t.at] == r3[0] && fmt[t.at + 1..] == r3[1..]
  {
    hide PrecisionChars, ParsePrecision, ParseQualifier, PassesField, IsQualifier, IsConversion, AfterPrecision,
         AfterQualifier, IsDigit;
    PrecisionIsRead(fmt, args, s, p, r2);
    QualifierIsRead(fmt, AfterPrecision(s, p), q, r3);
  }

  /** Flags, width, precision and qualifier one behind the other, in front of `r3`. */
  lemma PartsInTurn(fmt: string, i: nat, flags: string, w: Field, p: Field, q: string, args: seq<Arg>, n: nat,
                    r0: string, r1: string, r2: string, r3: string)
    requires i <= |fmt| && fmt[i..] == flags + r0 && r0 == WidthChars(w) + r1 && r1 == PrecisionChars(p) + r2 && r2 == q + r3
    requires AreFlags(flags) && IsQualifier(q) && r0 != [] && r1 != [] && r2 != [] && r3 != [] && IsConversion(r3[0])
    requires r0[0] !in "-+ #0" && !IsDigit(r1[0]) && r1[0] != '*' && !IsDigit(r2[0]) && r2[0] != '.' && r2[0] != '*' && !w.Dot?
    requires PassesField(w, args, n) && PassesField(p, args, n + w.Taken())
    ensures var s := AfterWidth(Spec(WithFlags(NO_FLAGS, flags), -1, -1, '\0', i + |flags|, n), w);
            var t := AfterQualifier(AfterPrecision(s, p), q);
         && ParseSpec(fmt, i, args, n) == t && t.at < |fmt| && fmt[t.at] == r3[0] && fmt[t.at + 1..] == r3[1..]
  {
    hide PrecisionChars, WidthChars, ParseFlags, ParseWidth, ParsePrecision, ParseQualifier, PassesField, IsQualifier,
         IsConversion, AfterWidth, AfterPrecision, AfterQualifier, AreFlags, WithFlags, IsDigit;
    FlagsAreRead(fmt, i, flags, r0, NO_FLAGS);
    var s := Spec(WithFlags(NO_FLAGS, flags), -1, -1, '\0', i + |flags|, n);
    WidthIsRead(fmt, args, s, w, r1);
    EndsInTurn(fmt, args, AfterWidth(s, w), p, q, r2, r3);
  }

  lemma PartsMean(flags: string, w: Field, p: Field, q: string, i: nat, n: nat, length: nat)
    requires length == |flags| + |WidthChars(w)| + |PrecisionChars(p)| + |q|
    ensures AfterQualifier(AfterPrecision(AfterWidth(Spec(WithFlags(NO_FLAGS, flags), -1, -1, '\0', i + |flags|, n), w), p), q)
         == MeantSpec(flags, w, p, q, i + length, n)
  {
    hide WidthChars, PrecisionChars;
  }

  lemma PartsAreRead(fmt: string, i: nat, flags: string, w: Field, p: Field, q: string, c: char, rest: string,
                     args: seq<Arg>, n: nat)
    requires i <= |fmt| && fmt[i..] == SpecChars(flags, w, p, q, c) + rest && IsSpec(flags, w, p, q, c)
    requires PassesField(w, args, n) && PassesField(p, args, n + w.Taken())
    ensures var at := i + |SpecChars(flags, w, p, q, c)| - 1;
         && ParseSpec(fmt, i, args, n) == MeantSpec(flags, w, p, q, at, n)
         && at < |fmt| && fmt[at] == c && fmt[at + 1..] == rest
  {
    FirstChars(w, p, q, c);
    Regroup(flags, WidthChars(w), PrecisionChars(p), q, c, rest);
    Same(q, c, rest, PrecisionChars(p), WidthChars(w));
    PartsMean(flags, w, p, q, i, n, |SpecChars(flags, w, p, q, c)| - 1);
    hide PrecisionChars, WidthChars, ParseSpec, PassesField, IsQualifier, IsConversion, AfterWidth, AfterPrecision,
         AfterQualifier, MeantSpec, AreFlags, WithFlags, IsDigit;
    var r3 := [c] + rest;
    var r2 := q + r3;
    var r1 := PrecisionChars(p) + r2;
    PartsInTurn(fmt, i, flags, w, p, q, args, n, WidthChars(w) + r1, r1, r2, r3);
  }

  lemma Regroup(flags: string, w: string, p: string, q: string, c: char, rest: string)
    ensures flags + (w + (p + (q + [c]))) + rest == flags + (w + (p + (q + ([c] + rest))))
  {
    assert (q + [c]) + rest == q + ([c] + rest);
    assert (p + (q + [c])) + rest == p + (q + ([c] + rest));
    assert (w + (p + (q + [c]))) + rest == w + (p + (q + ([c] + rest)));
  }

  /** The parts begin alike, whatever follows. */
  lemma Same(q: string, c: char, rest: string, p: string, w: string)
    ensures (q + ([c] + rest))[0] == (q + [c])[0]
    ensures (p + (q + ([c] + rest)))[0] == (p + (q + [c]))[0]
    ensures (w + (p + (q + ([c] + rest))))[0] == (w + (p + (q + [c])))[0]
  {
  }

  // What is printed

  /** The range of the type a qualifier stands for. */
  function LimitOf(q: string): nat {
    if q == "h" then 0x1_0000 else if q == "" then 0x1_0000_0000 else 0x1_0000_0000_0000_0000
  }

  predicate IsInteger(c: char) {
    c == 'd' || c == 'i' || c == 'o' || c == 'u' || c == 'x' || c == 'X'
  }

  /** The argument is the number `v` of the type that conversion and qualifier say. */
  predicate PassesNumber(v: int, q: string, c: char, args: seq<Arg>, n: nat) {
    && n < |args| && args[n].Num? && args[n].bits % LimitOf(q) == v % LimitOf(q)
    && if c == 'd' || c == 'i' then 0 - LimitOf(q) <= 2 * v < LimitOf(q) else 0 <= v < LimitOf(q)
  }

  function IntegerSign(v: int, flags: string, c: char): string {
    var signed := c == 'd' || c == 'i';
    if v < 0 then "-" else if signed && '+' in flags then "+" else if signed && ' ' in flags then " " else ""
  }

  function IntegerPrefix(flags: string, c: char): string {
    if '#' !in flags then "" else if c == 'o' then "0" else if c == 'x' then "0x" else if c == 'X' then "0X" else ""
  }

  function IntegerDigits(c: char): (digits: string)
    ensures |digits| == 8 || |digits| == 10 || |digits| == 16
  {
    if c == 'o' then "01234567" else if c == 'x' then "0123456789abcdef" else if c == 'X' then "0123456789ABCDEF"
    else "0123456789"
  }

  /** The number `v` as the conversion `c` prints it. */
  function IntegerText(v: int, flags: string, w: Field, p: Field, c: char): string {
    var s := MeantSpec(flags, w, p, "", 0, 0);
    Layout(IntegerSign(v, flags, c), IntegerPrefix(flags, c), Numeral(Abs(v), IntegerDigits(c)), s.width, s.precision, s.flags)
  }

  lemma ValueIsPassed(v: int, q: string, c: char, args: seq<Arg>, s: Spec)
    requires IsInteger(c) && IsQualifier(q) && PassesNumber(v, q, c, args, s.used)
    requires s.qualifier == if q == "" then '\0' else if q == "ll" then 'L' else q[0]
    ensures IsPassed(v, IntValue(s, c, args), c == 'd' || c == 'i')
  {
    var bits := args[s.used].bits;
    ModMod(bits, LimitOf(q));
    assert NumArg(args, s.used) % LimitOf(q) == v % LimitOf(q);
    if c == 'd' || c == 'i' {
      SignedIs(v, NumArg(args, s.used), LimitOf(q));
    } else {
      assert v % LimitOf(q) == v;
    }
  }

  lemma SignedIs(v: int, n: nat, limit: nat)
    requires limit == 0x1_0000 || limit == 0x1_0000_0000 || limit == 0x1_0000_0000_0000_0000
    requires n % limit == v % limit && 0 - limit <= 2 * v < limit
    ensures Signed(n, limit) == v && SignExtend(n, limit) == v % 0x1_0000_0000_0000_0000
  {
    assert v % limit == if v < 0 then v + limit else v;
  }

  lemma SameLayout(sign: string, prefix: string, numeral: string, width: int, precision: int, f: Flags, g: Flags)
    requires f.left == g.left && f.zeropad == g.zeropad
    ensures Layout(sign, prefix, numeral, width, precision, f) == Layout(sign, prefix, numeral, width, precision, g)
  {
  }

  lemma SameParts(v: int, flags: string, c: char, f: Flags)
    requires IsInteger(c) && f.sign == (c == 'd' || c == 'i') && f.small == (c == 'x')
    requires f.plus == ('+' in flags) && f.space == (' ' in flags) && f.special == ('#' in flags)
    ensures SignFor(v, f) == IntegerSign(v, flags, c)
    ensures PrefixFor(BaseOf(c), f) == IntegerPrefix(flags, c)
    ensures DigitsFor(BaseOf(c), f.small) == IntegerDigits(c)
  {
  }

  lemma IntegerBase(fmt: string, s: Spec, c: char, args: seq<Arg>, ptr: PointerText)
    requires s.at < |fmt| && fmt[s.at] == c && IsInteger(c)
    ensures BaseOf(c) == 8 || BaseOf(c) == 10 || BaseOf(c) == 16
    ensures ConversionText(fmt, s, args, ptr)
         == NumberText(IntValue(s, c, args), BaseOf(c), s.width, s.precision, IntFlags(c, s.flags))
  {
    hide NumberText, IntValue;
  }

  /** What is meant does not depend on where it stands. */
  lemma MeantParts(flags: string, w: Field, p: Field, q: string, at: nat, n: nat)
    ensures var s, z := MeantSpec(flags, w, p, q, at, n), MeantSpec(flags, w, p, "", 0, 0);
         && s.width == z.width && s.precision == z.precision && s.flags == z.flags
         && s.qualifier == (if q == "" then '\0' else if q == "ll" then 'L' else q[0])
         && s.flags.plus == ('+' in flags) && s.flags.space == (' ' in flags) && s.flags.special == ('#' in flags)
         && !s.flags.sign && !s.flags.small
  {
  }

  lemma IntegerFlags(c: char, f: Flags)
    requires IsInteger(c) && !f.sign && !f.small
    ensures var g := IntFlags(c, f);
         && g.sign == (c == 'd' || c == 'i') && g.small == (c == 'x')
         && g.plus == f.plus && g.space == f.space && g.special == f.special && g.left == f.left && g.zeropad == f.zeropad
  {
  }

  lemma IntegerIsPrinted(fmt: string, s: Spec, v: int, flags: string, w: Field, p: Field, q: string, c: char,
                         args: seq<Arg>, n: nat, ptr: PointerText)
    requires s.at < |fmt| && fmt[s.at] == c && IsInteger(c) && IsQualifier(q) && s == MeantSpec(flags, w, p, q, s.at, n)
    requires PassesNumber(v, q, c, args, s.used)
    ensures ConversionText(fmt, s, args, ptr) == IntegerText(v, flags, w, p, c)
  {
    hide PassesNumber, IntValue, Layout, Numeral, NumberText, SignFor, PrefixFor, DigitsFor, IntegerSign, IntegerPrefix,
         IntegerDigits, IsPassed, Abs, MeantSpec, IsInteger, IsQualifier, IntFlags, BaseOf, ConversionText;
    MeantParts(flags, w, p, q, s.at, n);
    ValueIsPassed(v, q, c, args, s);
    var f := IntFlags(c, s.flags);
    IntegerFlags(c, s.flags);
    SameParts(v, flags, c, f);
    IntegerBase(fmt, s, c, args, ptr);
    NumberIs(v, IntValue(s, c, args), BaseOf(c), s.width, s.precision, f);
    SameLayout(IntegerSign(v, flags, c), IntegerPrefix(flags, c), Numeral(Abs(v), IntegerDigits(c)),
               s.width, s.precision, f, s.flags);
  }

  /** A conversion other than `%p` in a format: it is read as what it says, and the format goes on behind it. */
  lemma SpecIsRead(fmt: string, i: nat, flags: string, w: Field, p: Field, q: string, c: char, rest: string,
                   args: seq<Arg>, n: nat, ptr: PointerText)
    requires i <= |fmt| && fmt[i..] == "%" + (SpecChars(flags, w, p, q, c) + rest)
    requires IsSpec(flags, w, p, q, c) && c != 'p'
    requires PassesField(w, args, n) && PassesField(p, args, n + w.Taken())
    ensures var j := i + 1 + |SpecChars(flags, w, p, q, c)|; var s := MeantSpec(flags, w, p, q, j - 1, n);
         && j <= |fmt| && fmt[j..] == rest && s.at < |fmt| && fmt[s.at] == c
         && FormatText(fmt, i, args, n, ptr)
            == ConversionText(fmt, s, args, ptr) + FormatText(fmt, j, args, if TakesArgument(c) then s.used + 1 else s.used, ptr)
  {
    hide PassesField, SpecChars, ParseSpec, ConversionText, FormatText, IsQualifier, AreFlags, IsConversion, TakesArgument,
         MeantSpec;
    Behind(fmt, i, "%", SpecChars(flags, w, p, q, c) + rest);
    PartsAreRead(fmt, i + 1, flags, w, p, q, c, rest, args, n);
    FormatUnfolds(fmt, i, args, n, ptr);
    ConversionEnds(fmt, ParseSpec(fmt, i + 1, args, n), c);
  }

  lemma SpecEnds(flags: string, w: Field, p: Field, q: string, c: char)
    requires IsSpec(flags, w, p, q, c)
    ensures IsConversion(c) && IsQualifier(q)
  {
    hide AreFlags, IsQualifier, IsConversion;
  }

  lemma IntegerTakes(c: char)
    requires IsInteger(c)
    ensures TakesArgument(c) && c != 'p'
  {
  }

  lemma FormatUnfolds(fmt: string, i: nat, args: seq<Arg>, n: nat, ptr: PointerText)
    requires i < |fmt| && fmt[i] == '%'
    ensures var s := ParseSpec(fmt, i + 1, args, n);
         FormatText(fmt, i, args, n, ptr)
         == ConversionText(fmt, s, args, ptr) + FormatText(fmt, AfterConversion(fmt, s), args, UsedAfter(fmt, s), ptr)
  {
    hide ParseSpec, ConversionText, AfterConversion, UsedAfter;
  }

  lemma ConversionEnds(fmt: string, s: Spec, c: char)
    requires s.at < |fmt| && fmt[s.at] == c && IsConversion(c) && c != 'p'
    ensures AfterConversion(fmt, s) == s.at + 1 && UsedAfter(fmt, s) == if TakesArgument(c) then s.used + 1 else s.used
  {
  }

  /**
   Every integer conversion, with any flags, width, precision and qualifier, in any place of a format,
   prints the number it was passed, as the C standard lays it out, and goes on behind itself.
   */
  lemma {:induction false} IntegerConversion(fmt: string, i: nat, v: int, flags: string, w: Field, p: Field, q: string, c: char,
                                             rest: string, args: seq<Arg>, n: nat, ptr: PointerText)
    requires i <= |fmt| && fmt[i..] == "%" + (SpecChars(flags, w, p, q, c) + rest)
    requires IsSpec(flags, w, p, q, c) && IsInteger(c)
    requires PassesField(w, args, n) && PassesField(p, args, n + w.Taken())
    requires PassesNumber(v, q, c, args, n + w.Taken() + p.Taken())
    ensures var j := i + 1 + |SpecChars(flags, w, p, q, c)|;
         && j <= |fmt| && fmt[j..] == rest
         && FormatText(fmt, i, args, n, ptr)
            == IntegerText(v, flags, w, p, c) + FormatText(fmt, j, args, n + w.Taken() + p.Taken() + 1, ptr)
  {
    hide IntegerText, ConversionText, PassesNumber, PassesField, SpecChars, FormatText, IsSpec, IsInteger, TakesArgument,
         MeantSpec;
    IntegerTakes(c);
    SpecEnds(flags, w, p, q, c);
    SpecIsRead(fmt, i, flags, w, p, q, c, rest, args, n, ptr);
    var s := MeantSpec(flags, w, p, q, i + |SpecChars(flags, w, p, q, c)|, n);
    IntegerIsPrinted(fmt, s, v, flags, w, p, q, c, args, n, ptr);
  }

  /** A conversion alone. */
  lemma Alone(v: int, c: char, bits: nat, ptr: PointerText)
    requires IsInteger(c) && PassesNumber(v, "", c, [Num(bits)], 0)
    ensures FormatText(['%', c], 0, [Num(bits)], 0, ptr) == IntegerText(v, "", Absent, Absent, c)
  {
    var fmt := ['%', c];
    assert FormatText(fmt, 2, [Num(bits)], 1, ptr) == "";
    hide IntegerText, PassesNumber, FormatText;
    assert SpecChars("", Absent, Absent, "", c) == [c];
    assert fmt[0..] == "%" + ([c] + "");
    IntegerConversion(fmt, 0, v, "", Absent, Absent, "", c, "", [Num(bits)], 0, ptr);
    assert IntegerText(v, "", Absent, Absent, c) + "" == IntegerText(v, "", Absent, Absent, c);
  }

  lemma AloneText(v: int, c: char)
    requires IsInteger(c)
    ensures IntegerText(v, "", Absent, Absent, c) == (if v < 0 then "-" else "") + Numeral(Abs(v), IntegerDigits(c))
  {
    hide Numeral, IntegerDigits;
  }

  /** `%d` prints an `int`, negative ones with a minus sign. */
  lemma {:induction false} PlainSigned(i: int, a: nat, ptr: PointerText)
    requires -0x8000_0000 <= i < 0x8000_0000 && a % 0x1_0000_0000 == i % 0x1_0000_0000
    ensures FormatText("%d", 0, [Num(a)], 0, ptr) == (if i < 0 then "-" else "") + Numeral(Abs(i), "0123456789")
  {
    hide FormatText, IntegerText, Numeral;
    AloneText(i, 'd');
    Alone(i, 'd', a, ptr);
  }

  lemma AloneUnsigned(n: nat, c: char, a: nat, ptr: PointerText)
    requires n < 0x1_0000_0000 && a % 0x1_0000_0000 == n && IsInteger(c) && c != 'd' && c != 'i'
    ensures FormatText(['%', c], 0, [Num(a)], 0, ptr) == Numeral(n, IntegerDigits(c))
  {
    hide FormatText, IntegerText, Numeral, IntegerDigits;
    AloneText(n, c);
    Alone(n, c, a, ptr);
    assert "" + Numeral(n, IntegerDigits(c)) == Numeral(n, IntegerDigits(c));
  }

  /** `%u`, `%o`, `%x` and `%X` print an `unsigned int` in their base. */
  lemma {:induction false} PlainUnsigned(n: nat, a: nat, ptr: PointerText)
    requires n < 0x1_0000_0000 && a % 0x1_0000_0000 == n
    ensures FormatText("%u", 0, [Num(a)], 0, ptr) == Numeral(n, "0123456789")
    ensures FormatText("%o", 0, [Num(a)], 0, ptr) == Numeral(n, "01234567")
    ensures FormatText("%x", 0, [Num(a)], 0, ptr) == Numeral(n, "0123456789abcdef")
    ensures FormatText("%X", 0, [Num(a)], 0, ptr) == Numeral(n, "0123456789ABCDEF")
  {
    hide FormatText, Numeral;
    AloneUnsigned(n, 'u', a, ptr);
    AloneUnsigned(n, 'o', a, ptr);
    AloneUnsigned(n, 'x', a, ptr);
    AloneUnsigned(n, 'X', a, ptr);
  }

  /** For example -5 and 0xbeef. */
  lemma {:induction false} Examples(ptr: PointerText)
    ensures FormatText("%d", 0, [Num(0xffff_ffff_ffff_fffb)], 0, ptr) == "-5"
    ensures FormatText("%x", 0, [Num(0xbeef)], 0, ptr) == "beef"
  {
    assert Numeral(5, "0123456789") == "5";
    hide FormatText, Numeral;
    PlainSigned(-5, 0xffff_ffff_ffff_fffb, ptr);
    PlainUnsigned(0xbeef, 0xbeef, ptr);
    Beef();
  }

  lemma Beef()
    ensures Numeral(0xbeef, "0123456789abcdef") == "beef"
  {
    var digits := "0123456789abcdef";
    assert Numeral(0xb, digits) == "b";
    assert Numeral(0xbe, digits) == "b" + "e";
    assert Numeral(0xbee, digits) == "b" + "e" + "e";
    assert Numeral(0xbeef, digits) == "b" + "e" + "e" + "f";
  }

  // Strings and characters

  /** `t` is `u` among blanks, on the left or on the right of a field of `width`. */
  predicate Fills(t: string, u: string, width: int, left: bool) {
    && |t| == (if width > |u| then width else |u|)
    && (if left then u <= t else t[|t| - |u|..] == u)
    && forall k {:trigger t[k]} :: 0 <= k < |t| && (if left then k >= |u| else k < |t| - |u|) ==> t[k] == ' '
  }

  /** The characters of a string up to the precision, which none stands for all. */
  function Cut(s: Option<string>, precision: int): string {
    if s.None? then (if 0 <= precision < 6 then "<NULL>"[..precision] else "<NULL>")
    else if 0 <= precision < |s.value| then s.value[..precision] else s.value
  }

  lemma StringFills(s: Option<string>, width: int, precision: int, f: Flags)
    ensures Fills(StringText(s, width, precision, f), Cut(s, precision), width, f.left)
  {
  }

  lemma CharFills(c: char, width: int, f: Flags)
    ensures Fills(CharText(c, width, f), [c], width, f.left)
  {
  }

  /** What is printed for a string, a character, a percent sign, `%n`, and what is no conversion. */
  predicate IsTextOf(t: string, c: char, s: Spec, args: seq<Arg>, m: nat) {
    && (c != 's' && c != 'c' && c != 'n' ==> t == if c == '%' then "%" else ['%', c])
    && (c == 'n' ==> t == "")
    && (c == 's' && m < |args| && args[m].Text? ==> Fills(t, Cut(args[m].s, s.precision), s.width, s.flags.left))
    && (c == 'c' && m < |args| && args[m].Num? ==> Fills(t, [(args[m].bits % 256) as char], s.width, s.flags.left))
  }

  lemma TextIsPrinted(fmt: string, s: Spec, c: char, args: seq<Arg>, ptr: PointerText)
    requires s.at < |fmt| && fmt[s.at] == c && IsConversion(c) && !IsInteger(c) && c != 'p'
    ensures IsTextOf(ConversionText(fmt, s, args, ptr), c, s, args, s.used)
  {
    hide Fills, StringText, CharText, Cut;
    StringFills(TextArg(args, s.used), s.width, s.precision, s.flags);
    CharFills((NumArg(args, s.used) % 256) as char, s.width, s.flags);
    if s.used < |args| && args[s.used].Num? {
      LowOctet(args[s.used].bits);
    }
  }

  /**
   `%s` and `%c` fill their field with the string, cut to the precision, or the octet they were passed; `%%`
   is one percent sign, `%n` nothing, and what is no conversion stands for itself.
   */
  lemma {:induction false} TextConversion(fmt: string, i: nat, flags: string, w: Field, p: Field, q: string, c: char,
                                          rest: string, args: seq<Arg>, n: nat, ptr: PointerText)
    returns (t: string)
    requires i <= |fmt| && fmt[i..] == "%" + (SpecChars(flags, w, p, q, c) + rest)
    requires IsSpec(flags, w, p, q, c) && !IsInteger(c) && c != 'p'
    requires PassesField(w, args, n) && PassesField(p, args, n + w.Taken())
    ensures var j, m := i + 1 + |SpecChars(flags, w, p, q, c)|, n + w.Taken() + p.Taken();
         && j <= |fmt| && fmt[j..] == rest && IsTextOf(t, c, MeantSpec(flags, w, p, q, j - 1, n), args, m)
         && FormatText(fmt, i, args, n, ptr) == t + FormatText(fmt, j, args, if TakesArgument(c) then m + 1 else m, ptr)
  {
    hide PassesField, IsSpec, SpecChars, IsTextOf, ConversionText, FormatText, IsConversion, IsInteger, TakesArgument,
         MeantSpec;
    SpecIsRead(fmt, i, flags, w, p, q, c, rest, args, n, ptr);
    var s := MeantSpec(flags, w, p, q, i + |SpecChars(flags, w, p, q, c)|, n);
    t := ConversionText(fmt, s, args, ptr);
    SpecEnds(flags, w, p, q, c);
    TextIsPrinted(fmt, s, c, args, ptr);
  }

  /** Text without a percent sign is printed as it is. */
  lemma {:induction false} PlainText(fmt: string, i: nat, t: string, rest: string, args: seq<Arg>, n: nat, ptr: PointerText)
    requires i <= |fmt| && fmt[i..] == t + rest && '%' !in t
    ensures i + |t| <= |fmt| && FormatText(fmt, i, args, n, ptr) == t + FormatText(fmt, i + |t|, args, n, ptr)
    decreases |t|
  {
    hide FormatText;
    if t == [] {
      assert t + FormatText(fmt, i, args, n, ptr) == FormatText(fmt, i, args, n, ptr);
    } else {
      assert t + rest == [t[0]] + (t[1..] + rest);
      Behind(fmt, i, [t[0]], t[1..] + rest);
      PlainCharacter(fmt, i, args, n, ptr);
      PlainText(fmt, i + 1, t[1..], rest, args, n, ptr);
      assert t == [t[0]] + t[1..];
      AssocCons(t[0], t[1..], FormatText(fmt, i + |t|, args, n, ptr));
    }
  }

  lemma PlainCharacter(fmt: string, i: nat, args: seq<Arg>, n: nat, ptr: PointerText)
    requires i < |fmt| && fmt[i] != '%'
    ensures FormatText(fmt, i, args, n, ptr) == [fmt[i]] + FormatText(fmt, i + 1, args, n, ptr)
  {
    hide ParseSpec, ConversionText, AfterConversion, UsedAfter;
  }

  lemma AssocCons(c: char, t: string, u: string)
    ensures [c] + (t + u) == [c] + t + u
  {
  }

  lemma LowOctet(bits: nat)
    ensures bits % 0x1_0000_0000_0000_0000 % 256 == bits % 256
  {
    var q, r := bits / 0x1_0000_0000_0000_0000, bits % 0x1_0000_0000_0000_0000;
    Decimal.Unique(bits, 256, 0x100_0000_0000_0000 * q + r / 256, r % 256);
  }
}
