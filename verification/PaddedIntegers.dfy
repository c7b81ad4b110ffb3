/**
 Printing an integer in a field and reading it back with `atoi`: for every width
 and padding, exactly when the integer comes back.
 */
module PaddedIntegers {
  import opened Digits
  import opened Numerals
  import opened Printf
  import opened Conversions

  // ---------------------------------------------------------------- padding

  lemma {:induction false} SkipSpaces(k: nat, s: string)
    ensures SkipBlanks(Repeat(' ', k) + s) == SkipBlanks(s)
  {
    if k == 0 {
      assert Repeat(' ', 0) + s == s;
    } else {
      assert Repeat(' ', k) + s == Repeat(' ', k - 1) + ([' '] + s);
      SkipSpaces(k - 1, [' '] + s);
      assert ([' '] + s)[1..] == s;
    }
  }

  lemma {:induction false} ZerosInFront(k: nat, s: string)
    ensures Value(Repeat('0', k) + s, 10) == Value(s, 10)
    decreases |s|, k
  {
    if s != [] {
      var front, c := s[..|s| - 1], s[|s| - 1];
      assert Repeat('0', k) + s == (Repeat('0', k) + front) + [c];
      ValueSnoc(Repeat('0', k) + front, c, 10);
      ZerosInFront(k, front);
    } else if k > 0 {
      assert Repeat('0', k) + [] == (Repeat('0', k - 1) + []) + ['0'];
      ValueSnoc(Repeat('0', k - 1) + [], '0', 10);
      ZerosInFront(k - 1, []);
    } else {
      assert Repeat('0', 0) + s == s;
    }
  }

  function Pow10(k: nat): nat {
    if k == 0 then 1 else 10 * Pow10(k - 1)
  }

  lemma TimesTen(v: int, p: int)
    ensures v * p * 10 == v * (10 * p)
  {}

  lemma {:induction false} ZerosBehind(s: string, k: nat)
    ensures Value(s + Repeat('0', k), 10) == Value(s, 10) * Pow10(k)
  {
    if k == 0 {
      assert s + Repeat('0', 0) == s;
    } else {
      var t := s + Repeat('0', k - 1);
      assert s + Repeat('0', k) == t + ['0'];
      ValueSnoc(t, '0', 10);
      ZerosBehind(s, k - 1);
      TimesTen(Value(s, 10), Pow10(k - 1));
    }
  }

  // ---------------------------------------------------------------- arithmetic modulo 2^32

  lemma HalfProduct(x: int, h: int, m: int, r: int)
    requires x == 2 * h && x * m == 2 * r
    ensures h * m == r
  {
    assert (2 * h) * m == 2 * (h * m);
  }

  lemma EvenFactor(x: int, j: int, r: int)
    requires x * (2 * j + 1) == 2 * r
    ensures x == 2 * (r - j * x)
  {
    assert x * (2 * j + 1) == 2 * (j * x) + x;
  }

  /** An odd factor can be cancelled modulo a power of two. */
  lemma {:induction false} OddCancels(x: int, j: int, q: int, e: nat) returns (y: int)
    requires x * (2 * j + 1) == q * Pow2(e)
    ensures x == y * Pow2(e)
    decreases e
  {
    if e == 0 { return x; }
    var p: int := Pow2(e - 1);
    var r := q * p;
    assert q * Pow2(e) == 2 * r;
    EvenFactor(x, j, r);
    var h := r - j * x;
    HalfProduct(x, h, 2 * j + 1, r);
    y := OddCancels(h, j, q, e - 1);
    assert 2 * (y * p) == y * (2 * p);
  }

  lemma TwoTo32()
    ensures Pow2(32) == 0x1_0000_0000
  {
    Pow2Of16();
    Pow2Add(16, 16);
  }

  lemma OddMultiple(n: int, p: int)
    ensures n * (2 * (5 * p - 1) + 1) == n * (10 * p) - n
  {}

  /** Multiplying by a power of ten changes every number but zero, also modulo 2^32. */
  lemma TenfoldDiffers(n: int, k: nat)
    requires -0x8000_0000 <= n < 0x8000_0000 && k > 0 && ToInt(Wrap32(n * Pow10(k))) == n
    ensures n == 0
  {
    ToIntOfWrap(n);
    var p: int := Pow10(k - 1);
    var a := n * (10 * p);
    var q := a / 0x1_0000_0000 - n / 0x1_0000_0000;
    assert a - n == q * 0x1_0000_0000;
    OddMultiple(n, p);
    TwoTo32();
    var y := OddCancels(n, 5 * p - 1, q, 32);
  }

  // ---------------------------------------------------------------- reading fields

  ghost predicate Decimals(s: string) {
    forall k :: 0 <= k < |s| ==> IsDecimal(s[k])
  }

  function Sign(neg: bool): string {
    if neg then "-" else ""
  }

  lemma ReadSigned(neg: bool, digits: string)
    requires digits != [] && Decimals(digits)
    ensures var v: int := Value(digits, 10); Atoi(Sign(neg) + digits) == ToInt(Wrap32(if neg then -v else v))
  {
    DigitsOf(digits, []);
    assert digits + [] == digits;
    AtoiOf(Sign(neg) + digits, digits, neg);
  }

  lemma ReadValue(neg: bool, digits: string, v: int, n: int)
    requires digits != [] && Decimals(digits) && Value(digits, 10) == v && n == if neg then -v else v
    ensures Atoi(Sign(neg) + digits) == ToInt(Wrap32(n))
  {
    ReadSigned(neg, digits);
  }

  lemma SameAfterBlanks(s: string, t: string)
    requires SkipBlanks(s) == SkipBlanks(t)
    ensures Atoi(s) == Atoi(t)
  {}

  /** Blank padding in front. */
  lemma ReadAfterSpaces(n: int, k: nat)
    requires -0x8000_0000 <= n < 0x8000_0000
    ensures Atoi(Repeat(' ', k) + Decimal(n)) == n
  {
    var s := Decimal(n);
    assert Atoi(s) == n by {
      AtoiOfDecimal(n, []);
      assert s + [] == s;
    }
    SkipSpaces(k, s);
    SameAfterBlanks(Repeat(' ', k) + s, s);
  }

  /** Blank padding behind. */
  lemma ReadBeforeSpaces(n: int, k: nat)
    requires -0x8000_0000 <= n < 0x8000_0000
    ensures Atoi(Decimal(n) + Repeat(' ', k)) == n
  {
    if k > 0 { RepeatAt(' ', k, 0); }
    AtoiOfDecimal(n, Repeat(' ', k));
  }

  lemma DigitsAndZeros(m: nat, k: nat)
    ensures Decimals(Numeral(m, 10)) && Decimals(Repeat('0', k))
    ensures Decimals(Repeat('0', k) + Numeral(m, 10)) && Decimals(Numeral(m, 10) + Repeat('0', k))
  {
    forall i | 0 <= i < |Numeral(m, 10)| ensures IsDecimal(Numeral(m, 10)[i]) { NumeralDecimal(m, i); }
    forall i | 0 <= i < k ensures IsDecimal(Repeat('0', k)[i]) { RepeatAt('0', k, i); }
  }

  /** Zeros between sign and digits. */
  lemma ReadZeroFilled(n: int, m: nat, neg: bool, k: nat)
    requires -0x8000_0000 <= n < 0x8000_0000 && n == (if neg then 0 - m else m)
    ensures Atoi(Sign(neg) + (Repeat('0', k) + Numeral(m, 10))) == n
  {
    var digits := Repeat('0', k) + Numeral(m, 10);
    assert Decimals(digits) && digits != [] by { DigitsAndZeros(m, k); }
    assert Value(digits, 10) == m by {
      ZerosInFront(k, Numeral(m, 10));
      NumeralValue(m, 10);
    }
    ReadValue(neg, digits, m, n);
    ToIntOfWrap(n);
  }

  /** Zeros behind the digits: they count as digits. */
  lemma ReadZerosBehind(n: int, m: nat, neg: bool, k: nat)
    requires -0x8000_0000 <= n < 0x8000_0000 && n == (if neg then 0 - m else m)
    ensures Atoi(Sign(neg) + (Numeral(m, 10) + Repeat('0', k))) == n <==> n == 0 || k == 0
  {
    var digits := Numeral(m, 10) + Repeat('0', k);
    assert Decimals(digits) && digits != [] by { DigitsAndZeros(m, k); }
    assert Value(digits, 10) == m * Pow10(k) by {
      ZerosBehind(Numeral(m, 10), k);
      NumeralValue(m, 10);
    }
    NegatedProduct(m, Pow10(k));
    ReadValue(neg, digits, m * Pow10(k), n * Pow10(k));
    ToIntOfWrap(n);
    if k > 0 && ToInt(Wrap32(n * Pow10(k))) == n { TenfoldDiffers(n, k); }
  }

  lemma NegatedProduct(v: int, p: int)
    ensures -(v * p) == (-v) * p
  {}

  // ---------------------------------------------------------------- the theorem

  /** The text of a decimal field is sign, digits and padding in one of four arrangements. */
  lemma DecimalText(f: Field, n: int, m: nat, k: nat)
    requires -0x8000_0000 <= n < 0x8000_0000 && f.size != LongLongSize && m == (if n < 0 then -n else n)
    requires k == if f.spacing > |Decimal(n)| then f.spacing - |Decimal(n)| else 0
    ensures IntegerText(f, 'd', n) ==
            if f.right && f.zero then Sign(n < 0) + (Numeral(m, 10) + Repeat('0', k))
            else if f.right then Decimal(n) + Repeat(' ', k)
            else if f.zero then Sign(n < 0) + (Repeat('0', k) + Numeral(m, 10))
            else Repeat(' ', k) + Decimal(n)
  {
    ToIntOfWrap(n);
  }

  /**
   Reading a `%d` field of any width back gives the integer, except when zeros are
   used as padding on the right, where it does only for zero.
   */
  lemma PaddedRoundTrip(f: Field, n: int)
    requires -0x8000_0000 <= n < 0x8000_0000 && f.size != LongLongSize
    ensures Atoi(IntegerText(f, 'd', n)) == n <==> n == 0 || !(f.right && f.zero && f.spacing > |Decimal(n)|)
  {
    var m: nat := if n < 0 then -n else n;
    var k := if f.spacing > |Decimal(n)| then f.spacing - |Decimal(n)| else 0;
    DecimalText(f, n, m, k);
    if f.right && f.zero {
      ReadZerosBehind(n, m, n < 0, k);
    } else if f.right {
      ReadBeforeSpaces(n, k);
    } else if f.zero {
      ReadZeroFilled(n, m, n < 0, k);
    } else {
      ReadAfterSpaces(n, k);
    }
  }

  // ---------------------------------------------------------------- formats

  lemma DirectiveIsField(st: Style, w: string, size: Size, a: Arg)
    requires IsWidth(w)
    ensures Render(START, Directive(st, w, size, 'd'), [a]) == IntegerText(FieldOf(st, w, size), 'd', a.num)
  {
    DirectiveText(st, w, size, 'd', "", a, []);
    assert Directive(st, w, size, 'd') + "" == Directive(st, w, size, 'd') && [a] + [] == [a];
    assert Text(FieldOf(st, w, size), 'd', a) + "" == IntegerText(FieldOf(st, w, size), 'd', a.num);
  }

  /** The same of the format itself: flags, width and any size but `ll`. */
  lemma DirectiveRoundTrip(st: Style, w: string, size: Size, a: Arg)
    requires IsWidth(w) && size != LongLongSize && -0x8000_0000 <= a.num < 0x8000_0000
    ensures Atoi(Render(START, Directive(st, w, size, 'd'), [a])) == a.num <==>
              a.num == 0 || !(st.left && st.zero && Value(w, 10) > |Decimal(a.num)|)
  {
    DirectiveIsField(st, w, size, a);
    PaddedRoundTrip(FieldOf(st, w, size), a.num);
  }

  lemma FiveInField(f: Field)
    requires f == Field(true, IntSize, 3, true, true, false)
    ensures IntegerText(f, 'd', 5) == "500"
  {
    assert Numeral(5, 10) == "5";
    DecimalText(f, 5, 5, 2);
    assert Repeat('0', 1) == "0";
    assert Repeat('0', 2) == "00";
  }

  lemma ValueOfThree()
    ensures Value("3", 10) == 3
  {
    ValueSnoc([], '3', 10);
    assert [] + ['3'] == "3";
  }

  /** For instance `%-03d` prints 5 as 500. */
  lemma FiveBecomesFiveHundred(a: Arg)
    requires a.num == 5
    ensures Render(START, "%-03d", [a]) == "500"
  {
    var st := Style(false, true, true);
    assert Directive(st, "3", IntSize, 'd') == "%-03d";
    DirectiveIsField(st, "3", IntSize, a);
    ValueOfThree();
    FiveInField(FieldOf(st, "3", IntSize));
  }
}
