/**
 Numbers as text: the digit loop of `__pf_printnum`, which fills a small buffer
 from right to left, and `atoi`, which reads decimal text back.
 */
module Numerals {
  import opened Digits

  /** Space for 64 bits in octal, a terminator and one more: `64 / 3 + 2`. */
  const NUMBER_BUF_SIZE := 23

  /** The character for a digit, as in the table "0123456789abcdef". */
  function DigitChar(d: nat): char
    requires d < 16
  {
    if d < 10 then ('0' as int + d) as char else ('a' as int + (d - 10)) as char
  }

  /** The value of a digit character. */
  function DigitValue(c: char): nat {
    if '0' <= c <= '9' then c as int - '0' as int
    else if 'a' <= c <= 'f' then c as int - 'a' as int + 10
    else 0
  }

  predicate IsDecimal(c: char) {
    '0' <= c <= '9'
  }

  /** Quotient and remainder by repeated subtraction: the same as division, and easier to reason about in any base. */
  function Quot(n: nat, base: nat): nat
    requires base > 0
    decreases n
  {
    if n < base then 0 else Quot(n - base, base) + 1
  }

  function Rem(n: nat, base: nat): (r: nat)
    requires base > 0
    ensures r < base
    decreases n
  {
    if n < base then n else Rem(n - base, base)
  }

  lemma {:induction false} QuotRem(n: nat, base: nat)
    requires base > 0
    ensures n == Quot(n, base) * base + Rem(n, base)
    decreases n
  {
    if n >= base {
      QuotRem(n - base, base);
      OneMore(Quot(n - base, base), base);
    }
  }

  lemma OneMore(q: int, base: int)
    ensures (q + 1) * base == q * base + base
  {}

  /** The division of the code. */
  lemma QuotIsDivision(n: nat, base: nat)
    requires base > 0
    ensures n / base == Quot(n, base) && n % base == Rem(n, base)
  {
    QuotRem(n, base);
    UniqueDivision(n, base, Quot(n, base), Rem(n, base), n / base, n % base);
  }

  lemma UniqueDivision(n: int, base: int, q: int, r: int, q': int, r': int)
    requires base > 0 && n == q * base + r && n == q' * base + r' && 0 <= r < base && 0 <= r' < base
    ensures q == q' && r == r'
  {
    assert (q - q') * base == r' - r;
    if q > q' { MulMono(1, q - q', base); }
    if q < q' { MulMono(q - q', -1, base); }
  }

  lemma {:induction false} QuotAtMost(n: nat, base: nat)
    requires base > 0
    ensures Quot(n, base) <= n
    decreases n
  {
    if n >= base { QuotAtMost(n - base, base); }
  }

  lemma Smaller(n: nat, base: nat)
    requires 2 <= base <= n
    ensures 1 <= Quot(n, base) < n
  {
    QuotAtMost(n - base, base);
  }

  /** The shortest text of a number, most significant digit first. */
  function Numeral(n: nat, base: nat): (s: string)
    requires 2 <= base <= 16
    ensures |s| >= 1
    decreases n
  {
    if n < base then [DigitChar(n)]
    else
      Smaller(n, base);
      Numeral(Quot(n, base), base) + [DigitChar(Rem(n, base))]
  }

  /** What text denotes in a base. */
  function Value(s: string, base: nat): nat {
    if s == [] then 0 else Value(s[..|s| - 1], base) * base + DigitValue(s[|s| - 1])
  }

  lemma ValueSnoc(s: string, c: char, base: nat)
    ensures Value(s + [c], base) == Value(s, base) * base + DigitValue(c)
  {
    assert (s + [c])[..|s|] == s;
  }

  /** Printing and evaluating give the number back, in every base. */
  lemma {:induction false} NumeralValue(n: nat, base: nat)
    requires 2 <= base <= 16
    ensures Value(Numeral(n, base), base) == n
    decreases n
  {
    if n < base {
      ValueSnoc([], DigitChar(n), base);
      assert [] + [DigitChar(n)] == [DigitChar(n)];
    } else {
      Smaller(n, base);
      NumeralValue(Quot(n, base), base);
      ValueSnoc(Numeral(Quot(n, base), base), DigitChar(Rem(n, base)), base);
      QuotRem(n, base);
    }
  }

  lemma {:induction false} NumeralDecimal(n: nat, k: nat)
    requires k < |Numeral(n, 10)|
    ensures IsDecimal(Numeral(n, 10)[k])
    decreases n
  {
    if n >= 10 && k < |Numeral(n, 10)| - 1 {
      Smaller(n, 10);
      NumeralDecimal(Quot(n, 10), k);
    }
  }

  // ---------------------------------------------------------------- length

  /** 8 to the k. */
  function Pow8(k: nat): nat {
    if k == 0 then 1 else 8 * Pow8(k - 1)
  }

  lemma {:induction false} QuotientBelow(n: nat, base: nat, p: nat)
    requires base >= 8 && n < 8 * p
    ensures Quot(n, base) < p
    decreases n
  {
    if n >= base { QuotientBelow(n - base, base, p - 1); }
  }

  lemma {:induction false} NumeralLength(n: nat, base: nat, k: nat)
    requires 8 <= base <= 16 && k >= 1 && n < Pow8(k)
    ensures |Numeral(n, base)| <= k
    decreases k
  {
    assert Pow8(1) == 8;
    if n >= base && k > 1 {
      QuotientBelow(n, base, Pow8(k - 1));
      NumeralLength(Quot(n, base), base, k - 1);
    }
  }

  /** 64 bits never need more than 22 characters. */
  lemma NumeralFits(n: ULong, base: nat)
    requires 8 <= base <= 16
    ensures |Numeral(n, base)| <= 22
  {
    assert Pow8(22) == 0x4_0000_0000_0000_0000 by {
      assert Pow8(4) == 4096;
      assert Pow8(8) == 8 * 8 * 8 * 8 * Pow8(4);
      assert Pow8(12) == 8 * 8 * 8 * 8 * Pow8(8);
      assert Pow8(16) == 8 * 8 * 8 * 8 * Pow8(12);
      assert Pow8(20) == 8 * 8 * 8 * 8 * Pow8(16);
    }
    NumeralLength(n, base, 22);
  }

  // ---------------------------------------------------------------- the digit loop

  /** The last digit of a number and the number without it. */
  method NextDigit(xnum: nat, base: nat) returns (c: char, rest: nat)
    requires 2 <= base <= 16
    ensures Numeral(xnum, base) == (if rest == 0 then [] else Numeral(rest, base)) + [c]
    ensures rest < xnum || rest == 0
  {
    QuotIsDivision(xnum, base);
    c, rest := DigitChar(xnum % base), xnum / base;
    if xnum >= base { Smaller(xnum, base); }
  }

  /** Store a character in front of the text that starts at `p + 1`. */
  method Prepend(buf: array<char>, p: nat, c: char)
    requires buf.Length == NUMBER_BUF_SIZE && p <= 21
    modifies buf
    ensures buf[p..22] == [c] + old(buf[p + 1..22]) && buf[22] == old(buf[22])
  {
    buf[p] := c;
  }

  lemma Regroup(left: string, next: string, c: char, done: string)
    requires left == next + [c]
    ensures left + done == next + ([c] + done)
  {}

  /** Fills the buffer from the right; the text starts at `x` and stays inside. */
  method PrintDigits(buf: array<char>, num: ULong, base: nat) returns (x: nat)
    requires buf.Length == NUMBER_BUF_SIZE && 8 <= base <= 16
    modifies buf
    ensures x < 22 && buf[22] == '\0' && buf[x..22] == Numeral(num, base)
  {
    NumeralFits(num, base);
    buf[22] := '\0';
    var p: int := 21;
    var xnum: nat := num;
    var more := true;
    ghost var left, done := Numeral(num, base), [];
    while more
      invariant -1 <= p <= 21 && buf[22] == '\0'
      invariant done == buf[p + 1..22] && Numeral(num, base) == left + done
      invariant left == if more then Numeral(xnum, base) else []
      decreases more, xnum
    {
      assert |left| + |done| <= 22;
      var c;
      c, xnum := NextDigit(xnum, base);
      Prepend(buf, p, c);
      ghost var next := if xnum == 0 then [] else Numeral(xnum, base);
      Regroup(left, next, c, done);
      left, done := next, [c] + done;
      p := p - 1;
      more := xnum > 0;
    }
    x := p + 1;
  }

  // ---------------------------------------------------------------- atoi

  function SkipBlanks(s: string): string {
    if s != [] && (s[0] == ' ' || s[0] == '\t') then SkipBlanks(s[1..]) else s
  }

  /** The longest prefix of decimal digits. */
  function LeadingDigits(s: string): string {
    if s != [] && IsDecimal(s[0]) then [s[0]] + LeadingDigits(s[1..]) else []
  }

  /** Two's complement reading of a 32-bit pattern. */
  function ToInt(w: Word): int {
    if w < 0x8000_0000 then w else w - 0x1_0000_0000
  }

  /** What `atoi` means: blanks, an optional sign, and as many digits as follow, modulo 2^32. */
  function Atoi(s: string): int {
    var t := SkipBlanks(s);
    var signed := t != [] && (t[0] == '-' || t[0] == '+');
    var v: int := Value(LeadingDigits(if signed then t[1..] else t), 10);
    ToInt(Wrap32(if t != [] && t[0] == '-' then -v else v))
  }

  lemma ModPlus(x: int, k: int)
    ensures (x + k * 0x1_0000_0000) % 0x1_0000_0000 == x % 0x1_0000_0000
  {}

  lemma WrapStep(a: nat, d: nat)
    ensures Wrap32(Wrap32(a) * 10 + d) == Wrap32(a * 10 + d)
  {
    var q := a / 0x1_0000_0000;
    assert a * 10 + d == (Wrap32(a) * 10 + d) + (10 * q) * 0x1_0000_0000;
    ModPlus(Wrap32(a) * 10 + d, 10 * q);
  }

  lemma WrapNegative(v: int, w: int)
    requires v >= 0 && w == Wrap32(v)
    ensures Wrap32(-w) == Wrap32(-v)
  {
    var q := v / 0x1_0000_0000;
    assert -v == -w + (-q) * 0x1_0000_0000;
    ModPlus(-w, -q);
  }

  lemma {:induction false} DigitsAppend(s: string, i: nat)
    requires i < |s| && IsDecimal(s[i]) && |LeadingDigits(s)| >= i
    ensures |LeadingDigits(s)| >= i + 1
    decreases i
  {
    if i > 0 { DigitsAppend(s[1..], i - 1); }
  }

  lemma {:induction false} DigitsPrefix(s: string)
    ensures LeadingDigits(s) <= s
    ensures forall k :: 0 <= k < |LeadingDigits(s)| ==> IsDecimal(s[k])
    ensures |LeadingDigits(s)| < |s| ==> !IsDecimal(s[|LeadingDigits(s)|])
  {
    if s != [] && IsDecimal(s[0]) {
      DigitsPrefix(s[1..]);
      assert forall k :: 1 <= k < |LeadingDigits(s)| ==> s[k] == s[1..][k - 1];
    }
  }

  /** The digit loop of `atoi`, from position `from`. */
  method ReadDigits(s: string, from: nat) returns (val: Word)
    requires from <= |s|
    ensures val == Wrap32(Value(LeadingDigits(s[from..]), 10))
  {
    ghost var t := s[from..];
    DigitsPrefix(t);
    val := 0;
    var i := 0;
    while from + i < |s| && IsDecimal(s[from + i])
      invariant i <= |t| && i <= |LeadingDigits(t)| && val == Wrap32(Value(t[..i], 10))
    {
      assert t[i] == s[from + i] && t[..i + 1][..i] == t[..i];
      DigitsAppend(t, i);
      WrapStep(Value(t[..i], 10), DigitValue(t[i]));
      val := Wrap32(val * 10 + (s[from + i] as int - '0' as int));
      i := i + 1;
    }
    assert i == |LeadingDigits(t)| && t[..i] == LeadingDigits(t);
  }

  /** `atoi`. */
  method ParseInt(s: string) returns (r: int)
    ensures r == Atoi(s)
  {
    var i := 0;
    while i < |s| && (s[i] == ' ' || s[i] == '\t')
      invariant i <= |s| && SkipBlanks(s) == SkipBlanks(s[i..])
    {
      assert s[i..][1..] == s[i + 1..];
      i := i + 1;
    }
    ghost var t := s[i..];
    assert SkipBlanks(s) == t;
    var neg := i < |s| && s[i] == '-';
    if i < |s| && (s[i] == '-' || s[i] == '+') {
      assert t[1..] == s[i + 1..];
      i := i + 1;
    }
    var val := ReadDigits(s, i);
    if neg {
      var w: int := val;
      WrapNegative(Value(LeadingDigits(s[i..]), 10), w);
      return ToInt(Wrap32(-w));
    }
    return ToInt(val);
  }

  // ---------------------------------------------------------------- round trip

  /** What `%d` prints. */
  function Decimal(n: int): string {
    if n < 0 then "-" + Numeral(-n, 10) else Numeral(n, 10)
  }

  lemma {:induction false} DigitsOf(s: string, rest: string)
    requires forall k :: 0 <= k < |s| ==> IsDecimal(s[k])
    requires rest != [] ==> !IsDecimal(rest[0])
    ensures LeadingDigits(s + rest) == s
  {
    if s == [] {
      assert s + rest == rest;
    } else {
      assert (s + rest)[1..] == s[1..] + rest;
      DigitsOf(s[1..], rest);
    }
  }

  lemma DecimalDigits(m: nat, rest: string)
    requires rest != [] ==> !IsDecimal(rest[0])
    ensures Value(LeadingDigits(Numeral(m, 10) + rest), 10) == m && IsDecimal((Numeral(m, 10) + rest)[0])
  {
    var digits := Numeral(m, 10);
    forall k | 0 <= k < |digits| ensures IsDecimal(digits[k]) { NumeralDecimal(m, k); }
    NumeralValue(m, 10);
    DigitsOf(digits, rest);
  }

  lemma ToIntOfWrap(n: int)
    requires -0x8000_0000 <= n < 0x8000_0000
    ensures ToInt(Wrap32(n)) == n
  {
    if n < 0 { assert (n + 0x1_0000_0000) % 0x1_0000_0000 == n % 0x1_0000_0000; }
  }

  /** How `atoi` reads text that starts with a digit, or with a minus and then a digit. */
  lemma AtoiOf(s: string, digits: string, neg: bool)
    requires digits != [] && IsDecimal(digits[0]) && s == (if neg then "-" else "") + digits
    ensures var v: int := Value(LeadingDigits(digits), 10); Atoi(s) == ToInt(Wrap32(if neg then -v else v))
  {
    assert SkipBlanks(s) == s;
    if neg { assert s[1..] == digits; } else { assert s == digits; }
  }

  /** `atoi` undoes `%d` on every 32-bit integer, whatever text follows it. */
  lemma AtoiOfDecimal(n: int, rest: string)
    requires -0x8000_0000 <= n < 0x8000_0000 && (rest != [] ==> !IsDecimal(rest[0]))
    ensures Atoi(Decimal(n) + rest) == n
  {
    var m: nat := if n < 0 then -n else n;
    DecimalDigits(m, rest);
    AtoiOf(Decimal(n) + rest, Numeral(m, 10) + rest, n < 0);
    ToIntOfWrap(n);
  }

  // ---------------------------------------------------------------- what atoi reads, for any text

  ghost predicate Blanks(s: string) {
    forall i :: 0 <= i < |s| ==> s[i] == ' ' || s[i] == '\t'
  }

  lemma {:induction false} SkipsBlanks(blanks: string, s: string)
    requires Blanks(blanks) && (s != [] ==> s[0] != ' ' && s[0] != '\t')
    ensures SkipBlanks(blanks + s) == s
    decreases |blanks|
  {
    if blanks == [] {
      assert blanks + s == s;
    } else {
      assert (blanks + s)[1..] == blanks[1..] + s;
      SkipsBlanks(blanks[1..], s);
    }
  }

  /** The signs `atoi` knows, and what may follow them. */
  ghost predicate SignAndDigits(sign: string, digits: string, rest: string) {
    && sign in {"", "-", "+"} && (forall i :: 0 <= i < |digits| ==> IsDecimal(digits[i]))
    && (rest != [] ==> !IsDecimal(rest[0]))
    && (sign == "" && digits == "" && rest != [] ==> rest[0] !in {' ', '\t', '-', '+'})
  }

  lemma FirstOf(sign: string, digits: string, rest: string)
    requires SignAndDigits(sign, digits, rest)
    ensures var t := sign + digits + rest;
            && (t != [] ==> t[0] != ' ' && t[0] != '\t')
            && (sign == "" ==> t == digits + rest && (t != [] ==> t[0] != '-' && t[0] != '+'))
            && (sign != "" ==> t != [] && t[0] == sign[0] && t[1..] == digits + rest)
  {
    var t := sign + digits + rest;
    if sign == "" {
      assert t == digits + rest;
      if digits != "" { assert t[0] == digits[0]; }
    } else {
      assert t == sign + (digits + rest);
    }
  }

  /** Blanks, a sign or none, and digits, whatever follows: the digits' value modulo 2^32, negated after a minus. */
  lemma AtoiOfText(blanks: string, sign: string, digits: string, rest: string)
    requires Blanks(blanks) && SignAndDigits(sign, digits, rest)
    ensures var v: int := Value(digits, 10);
            Atoi(blanks + (sign + digits + rest)) == ToInt(Wrap32(if sign == "-" then -v else v))
  {
    var t := sign + digits + rest;
    FirstOf(sign, digits, rest);
    SkipsBlanks(blanks, t);
    DigitsOf(digits, rest);
  }
}
