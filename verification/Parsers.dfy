/** The parsers of common.c and net/eth_common.c, which undo the printers of misc/vsnprintf.c. */
module Parsers {
  import opened Decimal
  import opened NumberTexts
  import opened Format

  predicate IsXDigit(c: char) {
    IsDigit(c) || 'a' <= c <= 'f' || 'A' <= c <= 'F'
  }

  function ToLower(c: char): char {
    if 'A' <= c <= 'Z' then (c as int - 'A' as int + 'a' as int) as char else c
  }

  /** What `simple_strtoul` takes a hexadecimal digit for. */
  function DigitValue(c: char): (v: nat)
    ensures v < 16
  {
    if IsDigit(c) then c as int - '0' as int
    else if 'a' <= c <= 'f' then c as int - 'a' as int + 10
    else if 'A' <= c <= 'F' then c as int - 'A' as int + 10
    else 0
  }

  predicate IsDigitOf(c: char, base: nat) {
    IsXDigit(c) && DigitValue(c) < base
  }

  /** `_parse_integer_fixup_radix` at index `i`: the base, and where the digits begin. */
  function FixupRadix(s: string, i: nat, base: nat): (nat, nat) {
    var b :=
      if base != 0 then base
      else if At(s, i) != '0' then 10
      else if ToLower(At(s, i + 1)) == 'x' && IsXDigit(At(s, i + 2)) then 16
      else 8;
    (b, if b == 16 && At(s, i) == '0' && ToLower(At(s, i + 1)) == 'x' then i + 2 else i)
  }

  /** The end of the run of digits that begins at `i`. */
  function RunEnd(s: string, i: nat, base: nat): (e: nat)
    ensures i <= e && (i <= |s| ==> e <= |s|)
    decreases |s| - i
  {
    if i < |s| && IsDigitOf(s[i], base) then RunEnd(s, i + 1, base) else i
  }

  /** The number that digits stand for. */
  function Value(t: string, base: nat): nat {
    if t == [] then 0 else Value(t[..|t| - 1], base) * base + DigitValue(t[|t| - 1])
  }

  predicate AllDigits(t: string, base: nat) {
    forall k {:trigger t[k]} :: 0 <= k < |t| ==> IsDigitOf(t[k], base)
  }

  lemma AllDigitsConcat(a: string, b: string, base: nat)
    ensures AllDigits(a + b, base) <==> AllDigits(a, base) && AllDigits(b, base)
  {
    if AllDigits(a + b, base) {
      forall k | 0 <= k < |a|
        ensures IsDigitOf(a[k], base)
      {
        assert (a + b)[k] == a[k];
      }
      forall k | 0 <= k < |b|
        ensures IsDigitOf(b[k], base)
      {
        assert (a + b)[|a| + k] == b[k];
      }
    }
  }

  lemma ValueSnoc(t: string, c: char, base: nat)
    requires AllDigits(t, base) && IsDigitOf(c, base)
    ensures AllDigits(t + [c], base) && Value(t + [c], base) == Value(t, base) * base + DigitValue(c)
  {
    AllDigitsConcat(t, [c], base);
    assert (t + [c])[..|t|] == t;
  }

  lemma RunIsDigits(s: string, i: nat, base: nat)
    requires i <= |s|
    ensures forall k {:trigger s[k]} :: i <= k < RunEnd(s, i, base) ==> IsDigitOf(s[k], base)
    ensures !IsDigitOf(At(s, RunEnd(s, i, base)), base)
    decreases |s| - i
  {
    if i < |s| && IsDigitOf(s[i], base) {
      RunIsDigits(s, i + 1, base);
    }
  }

  /** The digits from `i` on, taken in one by one as `unsigned long` arithmetic does, and the end. */
  function TakeDigits(s: string, i: nat, base: nat, acc: nat): (r: (nat, nat))
    ensures i <= r.1 && (i <= |s| ==> r.1 <= |s|)
    decreases |s| - i
  {
    if i < |s| && IsDigitOf(s[i], base) then TakeDigits(s, i + 1, base, (acc * base + DigitValue(s[i])) % U64_LIMIT)
    else (acc, i)
  }

  /** `simple_strtoul` at index `i`: the value, and the end. */
  function Strtoul(s: string, i: nat, base: nat): (r: (nat, nat))
    requires i <= |s|
    ensures i <= r.1 <= |s|
  {
    var (b, j) := FixupRadix(s, i, base);
    TakeDigits(s, j, b, 0)
  }

  lemma ModStep(v: nat, m: nat, base: nat, d: nat)
    requires m == v % U64_LIMIT
    ensures (m * base + d) % U64_LIMIT == (v * base + d) % U64_LIMIT
  {
    var q := v / U64_LIMIT;
    assert v * base + d == m * base + d + U64_LIMIT * (q * base);
    ModPlus(m * base + d, q * base);
  }

  lemma {:induction false} ModPlus(x: nat, k: nat)
    ensures (x + U64_LIMIT * k) % U64_LIMIT == x % U64_LIMIT
  {
    if k > 0 {
      ModPlus(x, k - 1);
      assert x + U64_LIMIT * k == x + U64_LIMIT * (k - 1) + U64_LIMIT;
    }
  }

  /** `simple_strtoul` */
  method SimpleStrtoul(s: string, from: nat, base: nat) returns (result: nat, end: nat)
    requires from <= |s|
    ensures (result, end) == Strtoul(s, from, base)
  {
    var (b, j) := FixupRadix(s, from, base);
    result, end := 0, j;
    while end < |s| && IsDigitOf(s[end], b)
      invariant j <= end <= |s| && TakeDigits(s, end, b, result) == TakeDigits(s, j, b, 0)
    {
      result := (result * b + DigitValue(s[end])) % U64_LIMIT;
      end := end + 1;
    }
  }

  lemma {:induction false} TakesValue(s: string, from: nat, i: nat, base: nat, acc: nat)
    requires from <= i <= |s| && AllDigits(s[from..i], base) && acc == Value(s[from..i], base) % U64_LIMIT
    ensures var e := RunEnd(s, i, base);
            AllDigits(s[from..e], base) && TakeDigits(s, i, base, acc) == (Value(s[from..e], base) % U64_LIMIT, e)
    decreases |s| - i
  {
    hide Value, DigitValue, AllDigits;
    if i < |s| && IsDigitOf(s[i], base) {
      assert s[from..i + 1] == s[from..i] + [s[i]];
      ValueSnoc(s[from..i], s[i], base);
      ModStep(Value(s[from..i], base), acc, base, DigitValue(s[i]));
      TakesValue(s, from, i + 1, base, (acc * base + DigitValue(s[i])) % U64_LIMIT);
    }
  }

  /** It is the value of the longest run of digits behind the prefix, modulo 2^64. */
  lemma {:induction false} StrtoulIsValue(s: string, i: nat, base: nat)
    requires i <= |s|
    ensures var (b, j) := FixupRadix(s, i, base); var e := RunEnd(s, j, b);
            j <= e <= |s| && AllDigits(s[j..e], b) && !IsDigitOf(At(s, e), b)
            && Strtoul(s, i, base) == (Value(s[j..e], b) % U64_LIMIT, e)
  {
    var (b, j) := FixupRadix(s, i, base);
    RunIsDigits(s, j, b);
    TakesValue(s, j, j, b, 0);
  }

  // Round trips

  /** A run of digits that nothing prolongs is read as the number it stands for. */
  lemma {:induction false} RunOf(s: string, i: nat, e: nat, base: nat)
    requires i <= e <= |s| && AllDigits(s[i..e], base) && !IsDigitOf(At(s, e), base)
    ensures RunEnd(s, i, base) == e
    decreases e - i
  {
    if i < e {
      assert s[i..e][0] == s[i];
      assert s[i + 1..e] == s[i..e][1..];
      RunOf(s, i + 1, e, base);
    }
  }

  lemma RunIsRead(s: string, i: nat, t: string, base: nat)
    requires FixupRadix(s, i, base) == (base, i)
    requires i + |t| <= |s| && s[i..i + |t|] == t && AllDigits(t, base) && !IsDigitOf(At(s, i + |t|), base)
    ensures Strtoul(s, i, base) == (Value(t, base) % U64_LIMIT, i + |t|)
  {
    hide Value, Strtoul, FixupRadix, AllDigits, IsDigitOf, RunEnd, At;
    RunOf(s, i, i + |t|, base);
    StrtoulIsValue(s, i, base);
  }

  lemma HexDigitIsDigit(d: nat, small: bool, base: nat)
    requires d < base <= 16
    ensures IsDigitOf(HexDigit(d, small), base) && DigitValue(HexDigit(d, small)) == d
  {
  }

  lemma ReversedCons(c: char, s: string)
    ensures Reversed([c] + s) == Reversed(s) + [c]
  {
    assert ([c] + s)[1..] == s;
  }

  lemma DigitsStep(n: nat, base: nat, small: bool)
    requires base == 8 || base == 10 || base == 16
    ensures DigitsOf(n, base, small)
         == [HexDigit(n % base, small)] + (if n < base then [] else DigitsOf(n / base, base, small))
  {
    if n < base {
      assert n % base == n;
    }
  }

  /** `t` is made of digits that stand for `n`. */
  predicate StandsFor(t: string, base: nat, n: nat) {
    AllDigits(t, base) && Value(t, base) == n
  }

  lemma DigitBelow(c: char, low: string, base: nat, n: nat)
    requires 0 < base <= 16 && IsDigitOf(c, base) && DigitValue(c) == n % base
    requires StandsFor(Reversed(low), base, n / base)
    ensures StandsFor(Reversed([c] + low), base, n)
  {
    ReversedCons(c, low);
    ValueSnoc(Reversed(low), c, base);
    DivMod(n, base);
  }

  lemma DivMod(n: nat, base: nat)
    requires base > 0
    ensures n == n / base * base + n % base
  {
  }

  /** Digits are digits, and stand for their number. */
  lemma {:induction false} DigitsOfStandFor(n: nat, base: nat, small: bool)
    requires base == 8 || base == 10 || base == 16
    ensures StandsFor(Reversed(DigitsOf(n, base, small)), base, n)
    decreases n
  {
    var low := if n < base then [] else DigitsOf(n / base, base, small);
    DigitsStep(n, base, small);
    HexDigitIsDigit(n % base, small, base);
    if n >= base {
      DigitsOfStandFor(n / base, base, small);
    } else {
      NothingStandsForZero(n, base);
    }
    DigitBelow(HexDigit(n % base, small), low, base, n);
  }

  lemma NothingStandsForZero(n: nat, base: nat)
    requires n < base
    ensures StandsFor(Reversed([]), base, n / base)
  {
    assert Reversed([]) == [];
  }

  lemma {:induction false} LeadingZeros(k: nat, t: string, base: nat)
    requires base > 0 && AllDigits(t, base)
    ensures AllDigits(Repeat('0', k) + t, base) && Value(Repeat('0', k) + t, base) == Value(t, base)
    decreases k + |t|
  {
    var z := Repeat('0', k) + t;
    assert AllDigits(Repeat('0', k), base);
    AllDigitsConcat(Repeat('0', k), t, base);
    if t != [] {
      AllDigitsConcat(t[..|t| - 1], [t[|t| - 1]], base);
      assert t == t[..|t| - 1] + [t[|t| - 1]];
      assert z[..|z| - 1] == Repeat('0', k) + t[..|t| - 1];
      LeadingZeros(k, t[..|t| - 1], base);
    } else if k > 0 {
      assert z[..|z| - 1] == Repeat('0', k - 1) + t;
      LeadingZeros(k - 1, t, base);
    }
  }
}
