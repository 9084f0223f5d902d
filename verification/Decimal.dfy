/** Decimal conversion without division: `put_dec` and its helpers in misc/vsnprintf.c. */
module Decimal {

  const U64_LIMIT := 0x1_0000_0000_0000_0000

  function Digit(d: nat): (c: char)
    requires d < 10
  {
    '0' + d as char
  }

  /** The decimal digits of `n`, least significant first, without leading zeros. */
  function DigitsLsb(n: nat): (s: string)
    ensures s != []
  {
    if n < 10 then [Digit(n)] else [Digit(n % 10)] + DigitsLsb(n / 10)
  }

  /** The last `k` decimal digits of `n`, least significant first. */
  function LastDigits(n: nat, k: nat): (s: string)
    ensures |s| == k
  {
    if k == 0 then [] else [Digit(n % 10)] + LastDigits(n / 10, k - 1)
  }

  lemma CarryStep(q: nat, e: nat, x: nat)
    requires q == e + 10 * x
    ensures q % 10 == e % 10 && q / 10 == e / 10 + x
  {
  }

  lemma HexDigits(q: nat)
    requires q < 100000
    ensures q == q % 16 + 16 * (q / 16 % 16) + 256 * (q / 256 % 16) + 4096 * (q / 4096)
    ensures q / 4096 <= 24
  {
    assert q / 16 / 16 == q / 256;
    assert q / 256 / 16 == q / 4096;
    var a, b := q / 16, q / 256;
    assert a == 16 * b + a % 16;
    assert b == 16 * (q / 4096) + b % 16;
  }

  /**
   The hexadecimal digits of `q`, re-weighted, carry over to the decimal digits one by one: what is
   left of `q` after one, two and three digits is `x1`, `x2` and `x3`.
   */
  lemma Reweighted(q: nat, d0: nat, d1: nat, d2: nat, d3: nat, e0: nat, e1: nat, e2: nat, e3: nat)
      returns (x1: nat, x2: nat, x3: nat)
    requires q < 100000 && d0 == q % 16 && d1 == q / 16 % 16 && d2 == q / 256 % 16 && d3 == q / 4096
    requires e0 == 6 * (d3 + d2 + d1) + d0
    requires e1 == e0 / 10 + 9 * d3 + 5 * d2 + d1
    requires e2 == e1 / 10 + 2 * d2
    requires e3 == e2 / 10 + 4 * d3
    ensures e0 <= 1028 && e1 <= 1028 && e2 <= 68 && e3 < 100
    ensures x1 == q / 10 && x2 == x1 / 10 && x3 == x2 / 10 == e3
    ensures q % 10 == e0 % 10 && x1 % 10 == e1 % 10 && x2 % 10 == e2 % 10
    ensures (x1 == 0 <==> e1 == 0) && (x2 == 0 <==> e2 == 0 && d3 == 0)
  {
    HexDigits(q);
    x1 := e1 + 10 * (2 * d2 + 10 * (4 * d3));
    x2 := e2 + 10 * (4 * d3);
    x3 := e3;
    CarryStep(q, e0, 9 * d3 + 5 * d2 + d1 + 10 * (2 * d2 + 10 * (4 * d3)));
    CarryStep(x1, e1, 2 * d2 + 10 * (4 * d3));
    CarryStep(x2, e2, 4 * d3);
  }

  /** Stores one digit of `x`; the digits of what is left complete `goal`, if anything is left. */
  method Emit(buf: array<char>, at: nat, d: nat, ghost x: nat, ghost goal: string)
    requires at < buf.Length && d == x % 10 && buf[..at] + DigitsLsb(x) == goal
    modifies buf
    ensures if x / 10 == 0 then buf[..at + 1] == goal else buf[..at + 1] + DigitsLsb(x / 10) == goal
  {
    buf[at] := Digit(d);
    assert buf[..at + 1] == old(buf[..at]) + [Digit(x % 10)];
  }

  /** `(x * 0xcd) >> 11` is a tenth of `x`, on a range its operands do not leave. */
  function Tenth(x: nat): (c: nat)
    requires x <= 1028
    ensures c == x / 10 && 0 <= x - 10 * c == x % 10
  {
    x * 0xcd / 0x800
  }

  /** `(x * 0xd) >> 7` likewise */
  function SmallTenth(x: nat): (c: nat)
    requires x <= 68
    ensures c == x / 10 && 0 <= x - 10 * c == x % 10
  {
    x * 0xd / 0x80
  }

  /** The ranges are the largest on which the multiplications are exact. */
  lemma RangesAreTight()
    ensures 1029 * 0xcd / 0x800 != 1029 / 10 && 69 * 0xd / 0x80 != 69 / 10
  {
  }

  /** The two most significant digits of `put_dec_trunc`. */
  method PutTopDigits(buf: array<char>, at: nat, d: nat, ghost goal: string) returns (end: nat)
    requires d < 100 && at + 2 <= buf.Length
    requires d != 0 ==> buf[..at] + DigitsLsb(d) == goal
    requires d == 0 ==> buf[..at] == goal
    modifies buf
    ensures at <= end <= at + 2 && buf[..end] == goal
  {
    end := at;
    if d != 0 {
      var c := Tenth(d);
      Emit(buf, end, d - 10 * c, d, goal);
      end := end + 1;
      if c != 0 {
        Emit(buf, end, c, d / 10, goal);
        end := end + 1;
      }
    }
  }

  /** The opening lines of both `put_dec_trunc` and `put_dec_full`. */
  method SplitHex(q: nat) returns (d0: nat, d1: nat, d2: nat, d3: nat, ghost x1: nat, ghost x2: nat)
    requires q < 100000
    ensures Carries(d0, d1, d2, d3, q, x1, x2)
  {
    d1 := q / 16 % 16;
    d2 := q / 256 % 16;
    d3 := q / 4096;
    d0 := 6 * (d3 + d2 + d1) + q % 16;
    ghost var e1 := d0 / 10 + 9 * d3 + 5 * d2 + d1;
    ghost var e2 := e1 / 10 + 2 * d2;
    ghost var x3;
    x1, x2, x3 := Reweighted(q, q % 16, d1, d2, d3, d0, e1, e2, e2 / 10 + 4 * d3);
  }

  /** With carries from each digit to the next, the re-weighted digits give `q`, `x1 == q / 10` and `x2 == x1 / 10`. */
  ghost predicate Carries(d0: nat, d1: nat, d2: nat, d3: nat, q: nat, x1: nat, x2: nat) {
    var e1 := d0 / 10 + 9 * d3 + 5 * d2 + d1;
    var e2 := e1 / 10 + 2 * d2;
    && d0 <= 1028 && d0 % 10 == q % 10 && x1 == q / 10
    && e1 <= 1028 && e1 % 10 == x1 % 10 && x2 == x1 / 10 && (x1 == 0 <==> e1 == 0)
    && e2 <= 68 && e2 % 10 == x2 % 10 && e2 / 10 + 4 * d3 == x2 / 10 < 100 && (x2 == 0 <==> e2 == 0 && d3 == 0)
  }

  /** `put_dec_trunc`: writes the digits of `q` at `at` and returns the end. */
  method PutDecTrunc(buf: array<char>, at: nat, q: nat) returns (end: nat)
    requires q < 100000 && at + 5 <= buf.Length
    modifies buf
    ensures at <= end <= at + 5 && buf[..end] == old(buf[..at]) + DigitsLsb(q)
  {
    hide DigitsLsb;
    ghost var goal := buf[..at] + DigitsLsb(q);
    var d0, d1, d2, d3;
    ghost var x1, x2;
    d0, d1, d2, d3, x1, x2 := SplitHex(q);
    var c := Tenth(d0);
    Emit(buf, at, d0 - 10 * c, q, goal);
    end := at + 1;
    d1 := c + 9 * d3 + 5 * d2 + d1;
    if d1 != 0 {
      c := Tenth(d1);
      Emit(buf, end, d1 - 10 * c, x1, goal);
      end := end + 1;
      d2 := c + 2 * d2;
      if d2 != 0 || d3 != 0 {
        c := SmallTenth(d2);
        Emit(buf, end, d2 - 10 * c, x2, goal);
        end := end + 1;
        end := PutTopDigits(buf, end, c + 4 * d3, goal);
      }
    }
  }

  /** Stores one of `k` digits of `x`; those of what is left complete `goal`. */
  method EmitFull(buf: array<char>, at: nat, d: nat, ghost x: nat, ghost k: nat, ghost goal: string)
    requires at < buf.Length && d == x % 10 && k > 0 && buf[..at] + LastDigits(x, k) == goal
    modifies buf
    ensures buf[..at + 1] + LastDigits(x / 10, k - 1) == goal
  {
    buf[at] := Digit(d);
    assert buf[..at + 1] == old(buf[..at]) + [Digit(x % 10)];
  }

  /** The two most significant digits of `put_dec_full`. */
  method PutFullTopDigits(buf: array<char>, at: nat, d: nat, ghost goal: string)
    requires d < 100 && at + 2 <= buf.Length && buf[..at] + LastDigits(d, 2) == goal
    modifies buf
    ensures buf[..at + 2] == goal
  {
    var c := Tenth(d);
    EmitFull(buf, at, d - 10 * c, d, 2, goal);
    EmitFull(buf, at + 1, c, d / 10, 1, goal);
  }

  /** `put_dec_full`: the same with the `if`s removed. */
  method PutDecFull(buf: array<char>, at: nat, q: nat) returns (end: nat)
    requires q < 100000 && at + 5 <= buf.Length
    modifies buf
    ensures end == at + 5 && buf[..end] == old(buf[..at]) + LastDigits(q, 5)
  {
    hide LastDigits;
    ghost var goal := buf[..at] + LastDigits(q, 5);
    var d0, d1, d2, d3;
    ghost var x1, x2;
    d0, d1, d2, d3, x1, x2 := SplitHex(q);
    var c := Tenth(d0);
    EmitFull(buf, at, d0 - 10 * c, q, 5, goal);
    d1 := c + 9 * d3 + 5 * d2 + d1;
    c := Tenth(d1);
    EmitFull(buf, at + 1, d1 - 10 * c, x1, 4, goal);
    d2 := c + 2 * d2;
    c := SmallTenth(d2);
    EmitFull(buf, at + 2, d2 - 10 * c, x2, 3, goal);
    PutFullTopDigits(buf, at + 3, c + 4 * d3, goal);
    end := at + 5;
  }

  /** Five digits split off leave the digits of the quotient. */
  lemma DigitsSplit(n: nat)
    requires n >= 100000
    ensures DigitsLsb(n) == LastDigits(n % 100000, 5) + DigitsLsb(n / 100000)
  {
    DigitsSplitBy(n, 5, 100000);
  }

  function Pow10(k: nat): nat {
    if k == 0 then 1 else 10 * Pow10(k - 1)
  }

  lemma {:induction false} DigitsSplitBy(n: nat, k: nat, p: nat)
    requires p == Pow10(k) && n >= p
    ensures p > 0 && DigitsLsb(n) == LastDigits(n % p, k) + DigitsLsb(n / p)
  {
    if k > 0 {
      DigitsSplitBy(n / 10, k - 1, p / 10);
      DigitDown(n, p / 10);
    }
  }

  /** The last digit goes, in number and modulus alike. */
  lemma DigitDown(n: nat, p: nat)
    requires p > 0
    ensures n % (10 * p) / 10 == n / 10 % p && n % (10 * p) % 10 == n % 10 && n / (10 * p) == n / 10 / p
  {
    var a, b := n / 10 / p, n / 10 % p;
    assert n / 10 == a * p + b;
    var r := 10 * b + n % 10;
    assert n == (10 * p) * a + r && 0 <= r < 10 * p;
    Unique(n, 10 * p, a, r);
  }

  lemma Unique(n: nat, m: nat, a: nat, r: nat)
    requires n == m * a + r && r < m
    ensures n / m == a && n % m == r
  {
    var x, y := n / m, n % m;
    assert n == m * x + y;
    Multiples(m, x + 1, a);
    Multiples(m, a + 1, x);
  }

  lemma Multiples(m: nat, x: nat, y: nat)
    ensures x <= y ==> m * x <= m * y
  {
  }

  /** What can be left of a 64-bit number after so many chunks. */
  predicate ChunkBound(chunk: nat, n: nat) {
    || (chunk == 0 && n < U64_LIMIT)
    || (chunk == 1 && n < 184467440737096)
    || (chunk == 2 && n < 1844674408)
    || (chunk == 3 && n < 18447)
  }

  /** `put_dec`: the digits of any unsigned 64-bit number, at most 20, in chunks of five. */
  method PutDec(buf: array<char>, at: nat, num: nat) returns (end: nat)
    requires num < U64_LIMIT && at + 20 <= buf.Length
    modifies buf
    ensures at <= end <= at + 20 && buf[..end] == old(buf[..at]) + DigitsLsb(num)
  {
    ghost var goal := buf[..at] + DigitsLsb(num);
    var n: nat := num;
    ghost var chunk := 0;
    end := at;
    while n >= 100000
      invariant end == at + 5 * chunk && ChunkBound(chunk, n) && buf[..end] + DigitsLsb(n) == goal
    {
      ghost var s := buf[..end];
      DigitsSplit(n);
      var q, rem := n / 100000, n % 100000;
      end := PutDecFull(buf, end, rem);
      assert buf[..end] + DigitsLsb(q) == s + (LastDigits(rem, 5) + DigitsLsb(q));
      n := q;
      chunk := chunk + 1;
    }
    end := PutDecTrunc(buf, end, n);
  }

  function Reversed(s: string): (r: string)
    ensures |r| == |s|
    ensures forall k {:trigger r[k]} :: 0 <= k < |s| ==> r[k] == s[|s| - 1 - k]
  {
    if s == [] then [] else Reversed(s[1..]) + [s[0]]
  }

  /** A number as it is written. */
  function Dec(n: nat): string {
    Reversed(DigitsLsb(n))
  }

  /** `simple_itoa`: the digits of `put_dec`, the other way round. */
  method SimpleItoa(i: nat) returns (s: string)
    requires i < U64_LIMIT
    ensures s == Dec(i)
  {
    // the static buffer is filled from its end
    s := [];
    var n := i;
    var done := false;
    while !done
      invariant if done then s == Dec(i) else Dec(n) + s == Dec(i)
      decreases !done, n
    {
      done := n < 10;
      s := [Digit(n % 10)] + s;
      n := n / 10;
    }
  }
}
