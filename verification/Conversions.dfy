/**
 What every conversion of the formatter prints, in terms of the format text and
 the argument alone: `%d`, `%u`, `%x`, `%o`, `%p`, `%s`, `%c` and the others,
 with any flags, field width and size.
 */
module Conversions {
  import opened Options
  import opened Digits
  import opened Numerals
  import opened Printf

  // ---------------------------------------------------------------- numbers as text

  const DIGITS := "0123456789abcdef"

  /** The digit characters stand in the order of their values. */
  lemma DigitTable(d: nat)
    requires d < 16
    ensures DigitChar(d) == DIGITS[d] && DigitValue(DIGITS[d]) == d
  {}

  /** `s` is the number `v` in a base, without leading zeros. */
  ghost predicate IsNumber(s: string, base: nat, v: nat)
    requires 2 <= base <= 16
  {
    && s != [] && (forall i :: 0 <= i < |s| ==> IsDigit(s[i], base))
    && Value(s, base) == v && (s[0] == '0' ==> |s| == 1)
  }

  ghost predicate IsDigit(c: char, base: nat)
    requires 2 <= base <= 16
  {
    c in DIGITS[..base]
  }

  lemma DigitInBase(d: nat, base: nat)
    requires d < base && 2 <= base <= 16
    ensures IsDigit(DigitChar(d), base) && (DigitChar(d) == '0' <==> d == 0)
  {
    DigitTable(d);
    assert DIGITS[..base][d] == DIGITS[d];
  }

  lemma {:induction false} NumeralIsNumber(n: nat, base: nat)
    requires 2 <= base <= 16
    ensures IsNumber(Numeral(n, base), base, n) && (n > 0 ==> Numeral(n, base)[0] != '0')
    decreases n
  {
    NumeralValue(n, base);
    if n < base {
      DigitInBase(n, base);
    } else {
      Smaller(n, base);
      NumeralIsNumber(Quot(n, base), base);
      DigitInBase(Rem(n, base), base);
    }
  }

  lemma DigitBelow(c: char, base: nat)
    requires 2 <= base <= 16 && IsDigit(c, base)
    ensures DigitValue(c) < base && c == DigitChar(DigitValue(c))
  {
    var d :| 0 <= d < base && DIGITS[..base][d] == c;
    DigitTable(d);
  }

  /** A number has one text only. */
  lemma {:induction false} NumberIsNumeral(s: string, base: nat, v: nat)
    requires 2 <= base <= 16 && IsNumber(s, base, v)
    ensures s == Numeral(v, base)
    decreases |s|
  {
    var front, c := s[..|s| - 1], s[|s| - 1];
    assert s == front + [c];
    DigitBelow(c, base);
    ValueSnoc(front, c, base);
    QuotRem(v, base);
    UniqueDivision(v, base, Value(front, base), DigitValue(c), Quot(v, base), Rem(v, base));
    if front == [] {
      assert v < base;
    } else {
      NumberIsNumeral(front, base, Value(front, base));
      NumeralIsNumber(Value(front, base), base);
      AtLeastBase(Value(front, base), v, base, DigitValue(c));
    }
  }

  lemma AtLeastBase(q: nat, v: nat, base: nat, d: nat)
    requires v == q * base + d && q > 0
    ensures v >= base
  {
    MulMono(1, q, base);
  }

  // ---------------------------------------------------------------- directives

  datatype Style = Style(alt: bool, left: bool, zero: bool)

  function Flags(st: Style): string {
    (if st.alt then "#" else "") + (if st.left then "-" else "") + (if st.zero then "0" else "")
  }

  function SizeText(size: Size): string {
    match size
    case IntSize => ""
    case LongSize => "l"
    case LongLongSize => "ll"
    case SizeT => "z"
  }

  /** A field width: digits that do not start with zero, or nothing. */
  ghost predicate IsWidth(w: string) {
    (forall i :: 0 <= i < |w| ==> IsDecimal(w[i])) && (w != [] ==> w[0] != '0')
  }

  function Directive(st: Style, w: string, size: Size, conv: char): string {
    "%" + Flags(st) + w + SizeText(size) + [conv]
  }

  // ---------------------------------------------------------------- reading the modifiers

  /** The field after a string of modifiers. */
  function Scan(f: Field, mods: string): Field
    decreases |mods|
  {
    if mods == [] then f else Scan(Modify(f, mods[0]), mods[1..])
  }

  lemma {:induction false} ScanJoin(f: Field, m: string, n: string)
    ensures Scan(f, m + n) == Scan(Scan(f, m), n)
    decreases |m|
  {
    if m == [] {
      assert m + n == n;
    } else {
      assert (m + n)[1..] == m[1..] + n;
      ScanJoin(Modify(f, m[0]), m[1..], n);
    }
  }

  ghost predicate Modifiers(mods: string) {
    forall i :: 0 <= i < |mods| ==> IsModifier(mods[i])
  }

  lemma {:induction false} RenderScans(f: Field, mods: string, rest: string, args: seq<Arg>)
    requires f.inPct && Modifiers(mods)
    ensures Render(f, mods + rest, args) == Render(Scan(f, mods), rest, args) && Scan(f, mods).inPct
    decreases |mods|
  {
    if mods == [] {
      assert mods + rest == rest;
    } else {
      assert (mods + rest)[1..] == mods[1..] + rest;
      RenderScans(Modify(f, mods[0]), mods[1..], rest, args);
    }
  }

  lemma DecimalIsModifier(c: char)
    requires IsDecimal(c)
    ensures IsModifier(c) && c != '#' && c != '-' && c != 'l' && c != 'z'
  {
    assert c in "0123456789" by { assert "0123456789"[c as int - '0' as int] == c; }
  }

  /** A digit of the width, unless it is a leading zero. */
  lemma DigitModifies(f: Field, c: char)
    requires IsDecimal(c) && (f.spacing > 0 || c != '0')
    ensures IsModifier(c) && Modify(f, c) == f.(spacing := f.spacing * 10 + DigitValue(c)) && Modify(f, c).spacing > 0
  {
    DecimalIsModifier(c);
  }

  lemma {:induction false} ScanWidth(f: Field, read: string, w: string)
    requires IsWidth(read + w) && f.spacing == Value(read, 10) && (read != [] ==> f.spacing > 0)
    ensures Scan(f, w) == f.(spacing := Value(read + w, 10)) && Modifiers(w)
    decreases |w|
  {
    if w == [] {
      assert read + w == read;
    } else {
      var c := w[0];
      assert (read + w)[|read|] == c;
      DigitModifies(f, c);
      ValueSnoc(read, c, 10);
      assert read + [c] + w[1..] == read + w;
      ScanWidth(Modify(f, c), read + [c], w[1..]);
      assert forall i :: 1 <= i < |w| ==> w[i] == w[1..][i - 1];
    }
  }

  lemma ScanOne(f: Field, ch: char)
    ensures Scan(f, [ch]) == Modify(f, ch) && Scan(f, "") == f
  {}

  lemma ScanFlags(st: Style)
    ensures Scan(START.(inPct := true), Flags(st)) ==
              START.(inPct := true, alt := st.alt, right := st.left, zero := st.zero)
    ensures Modifiers(Flags(st))
  {
    var f := START.(inPct := true);
    var x, y, z := if st.alt then "#" else "", if st.left then "-" else "", if st.zero then "0" else "";
    var f1 := f.(alt := st.alt);
    var f2 := f1.(right := st.left);
    ScanJoin(f, x + y, z);
    ScanJoin(f, x, y);
    ScanOne(f, '#');
    ScanOne(f1, '-');
    ScanOne(f2, '0');
  }

  lemma ScanSize(f: Field, size: Size)
    requires f.size == IntSize
    ensures Scan(f, SizeText(size)) == f.(size := size) && Modifiers(SizeText(size))
  {
    ScanOne(f, 'l');
    ScanOne(f.(size := LongSize), 'l');
    ScanOne(f, 'z');
    ScanJoin(f, "l", "l");
    assert "l" + "l" == "ll";
  }

  function FieldOf(st: Style, w: string, size: Size): Field {
    Field(true, size, Value(w, 10), st.left, st.zero, st.alt)
  }

  lemma ScanAll(st: Style, w: string, size: Size)
    requires IsWidth(w)
    ensures Scan(START.(inPct := true), Flags(st) + w + SizeText(size)) == FieldOf(st, w, size)
    ensures Modifiers(Flags(st) + w + SizeText(size))
  {
    var f := START.(inPct := true);
    var f1 := START.(inPct := true, alt := st.alt, right := st.left, zero := st.zero);
    ScanJoin(f, Flags(st) + w, SizeText(size));
    ScanJoin(f, Flags(st), w);
    ScanFlags(st);
    assert [] + w == w;
    ScanWidth(f1, [], w);
    ScanSize(f1.(spacing := Value(w, 10)), size);
  }

  lemma Percent(rest: string, args: seq<Arg>)
    ensures Render(START, "%" + rest, args) == Render(START.(inPct := true), rest, args)
  {
    assert ("%" + rest)[1..] == rest;
  }

  lemma Regrouped(p: string, f: string, w: string, z: string, c: string, rest: string)
    ensures p + f + w + z + c + rest == p + ((f + w + z) + (c + rest))
  {}

  lemma ReadDirective(st: Style, w: string, size: Size, conv: char, rest: string, args: seq<Arg>)
    requires IsWidth(w)
    ensures Render(START, Directive(st, w, size, conv) + rest, args) == Render(FieldOf(st, w, size), [conv] + rest, args)
  {
    var mods := Flags(st) + w + SizeText(size);
    Regrouped("%", Flags(st), w, SizeText(size), [conv], rest);
    Percent(mods + ([conv] + rest), args);
    ScanAll(st, w, size);
    RenderScans(START.(inPct := true), mods, [conv] + rest, args);
  }

  lemma Conversion(f: Field, conv: char, rest: string, args: seq<Arg>)
    requires f.inPct && !IsModifier(conv)
    ensures Render(f, [conv] + rest, args) ==
              Text(f, conv, First(args)) + Render(START, rest, if Takes(f, conv) then Rest(args) else args)
  {
    assert ([conv] + rest)[1..] == rest;
  }

  lemma TakesOne(f: Field, conv: char, a: Arg, args: seq<Arg>)
    requires f.inPct && conv in "doupxsc"
    ensures !IsModifier(conv) && Takes(f, conv) && First([a] + args) == a && Rest([a] + args) == args
  {
    assert ([a] + args)[1..] == args;
  }

  /** What a directive prints, and what is left of the format and the arguments. */
  lemma DirectiveText(st: Style, w: string, size: Size, conv: char, rest: string, a: Arg, args: seq<Arg>)
    requires IsWidth(w) && conv in "doupxsc"
    ensures Render(START, Directive(st, w, size, conv) + rest, [a] + args)
            == Text(FieldOf(st, w, size), conv, a) + Render(START, rest, args)
  {
    ReadDirective(st, w, size, conv, rest, [a] + args);
    TakesOne(FieldOf(st, w, size), conv, a, args);
    Conversion(FieldOf(st, w, size), conv, rest, [a] + args);
  }

  // ---------------------------------------------------------------- the field

  /** The padding of a field of the given width around `len` characters. */
  ghost predicate Fills(fill: string, st: Style, w: string, len: nat) {
    && |fill| == (if Value(w, 10) > len then Value(w, 10) - len else 0)
    && forall i :: 0 <= i < |fill| ==> fill[i] == if st.zero then '0' else ' '
  }

  /** Where the padding goes: behind, between prefixes and digits, or in front. */
  function Laid(st: Style, sign: string, prefix: string, body: string, fill: string): string {
    if st.left then sign + prefix + body + fill
    else if st.zero then sign + prefix + fill + body
    else fill + sign + prefix + body
  }

  lemma PaddedIsLaid(st: Style, w: string, size: Size, sign: string, prefix: string, body: string) returns (fill: string)
    ensures Fills(fill, st, w, |sign| + |prefix| + |body|)
    ensures Padded(FieldOf(st, w, size), sign, prefix, body) == Laid(st, sign, prefix, body, fill)
  {
    var len := |sign| + |prefix| + |body|;
    var c := if st.zero then '0' else ' ';
    fill := Repeat(c, if Value(w, 10) > len then Value(w, 10) - len else 0);
    forall i | 0 <= i < |fill| ensures fill[i] == c { RepeatAt(c, |fill|, i); }
  }

  // ---------------------------------------------------------------- the laws

  /** The modulus of an argument of a size: 2^64 for long long, 2^32 otherwise. */
  function Modulus(size: Size): nat {
    if size == LongLongSize then 0x1_0000_0000_0000_0000 else 0x1_0000_0000
  }

  /** `n` is the signed integer an argument of that size holds. */
  ghost predicate Holds(n: int, v: int, size: Size) {
    -(Modulus(size) / 2) <= n < Modulus(size) / 2 && n % Modulus(size) == v % Modulus(size)
  }

  lemma SignedHolds(v: int, size: Size)
    ensures Holds(Signed(v, size), v, size)
  {}

  lemma SignedParts(f: Field, a: Arg, n: int, m: nat)
    requires f.inPct && n == Signed(a.num, f.size) && m == if n < 0 then -n else n
    ensures Text(f, 'd', a) == Padded(f, if n < 0 then "-" else "", "", Numeral(m, 10))
  {}

  lemma SignedLaid(st: Style, w: string, size: Size, a: Arg)
    returns (n: int, sign: string, body: string, fill: string)
    ensures Text(FieldOf(st, w, size), 'd', a) == Laid(st, sign, "", body, fill)
    ensures Holds(n, a.num, size) && sign == (if n < 0 then "-" else "") && IsNumber(body, 10, if n < 0 then -n else n)
    ensures Fills(fill, st, w, |sign| + |body|)
  {
    n := Signed(a.num, size);
    assert Holds(n, a.num, size) by { SignedHolds(a.num, size); }
    var m: nat := if n < 0 then -n else n;
    sign, body := if n < 0 then "-" else "", Numeral(m, 10);
    assert IsNumber(body, 10, m) by { NumeralIsNumber(m, 10); }
    fill := PaddedIsLaid(st, w, size, sign, "", body);
    SignedParts(FieldOf(st, w, size), a, n, m);
  }

  /** `%d` in every form: the sign, then the decimal digits of the magnitude. */
  lemma SignedDirective(st: Style, w: string, size: Size, a: Arg, rest: string, args: seq<Arg>)
    returns (n: int, sign: string, body: string, fill: string)
    requires IsWidth(w)
    ensures Render(START, Directive(st, w, size, 'd') + rest, [a] + args)
            == Laid(st, sign, "", body, fill) + Render(START, rest, args)
    ensures Holds(n, a.num, size) && sign == (if n < 0 then "-" else "") && IsNumber(body, 10, if n < 0 then -n else n)
    ensures Fills(fill, st, w, |sign| + |body|)
  {
    n, sign, body, fill := SignedLaid(st, w, size, a);
    DirectiveText(st, w, size, 'd', rest, a, args);
  }

  function BaseOf(conv: char): (b: nat)
    requires conv in "uxo"
    ensures b == 10 || b == 16 || b == 8
  {
    if conv == 'u' then 10 else if conv == 'x' then 16 else 8
  }

  /** The prefix that `#` asks for. */
  function PrefixOf(st: Style, conv: char): string {
    if st.alt && conv == 'x' then "0x" else if st.alt && conv == 'o' then "0" else ""
  }

  lemma UnsignedParts(f: Field, st: Style, conv: char, v: int)
    requires conv in "uxo" && f.alt == st.alt
    ensures Number(f, conv, v) == (v % Modulus(f.size), false) && Base(conv) == BaseOf(conv)
    ensures BasePrefix(f, conv) == PrefixOf(st, conv) && IsInteger(conv) && !IsModifier(conv)
  {}

  lemma UnsignedLaid(st: Style, w: string, size: Size, conv: char, a: Arg) returns (body: string, fill: string)
    requires conv in "uxo"
    ensures Text(FieldOf(st, w, size), conv, a) == Laid(st, "", PrefixOf(st, conv), body, fill)
    ensures IsNumber(body, BaseOf(conv), a.num % Modulus(size)) && Fills(fill, st, w, |PrefixOf(st, conv)| + |body|)
  {
    body := Numeral(a.num % Modulus(size), BaseOf(conv));
    NumeralIsNumber(a.num % Modulus(size), BaseOf(conv));
    UnsignedParts(FieldOf(st, w, size), st, conv, a.num);
    fill := PaddedIsLaid(st, w, size, "", PrefixOf(st, conv), body);
  }

  /** `%u`, `%x` and `%o` in every form: the digits of the argument modulo 2^32 or 2^64, after 0x or 0 if asked for. */
  lemma UnsignedDirective(st: Style, w: string, size: Size, conv: char, a: Arg, rest: string, args: seq<Arg>)
    returns (body: string, fill: string)
    requires IsWidth(w) && conv in "uxo"
    ensures Render(START, Directive(st, w, size, conv) + rest, [a] + args)
            == Laid(st, "", PrefixOf(st, conv), body, fill) + Render(START, rest, args)
    ensures IsNumber(body, BaseOf(conv), a.num % Modulus(size)) && Fills(fill, st, w, |PrefixOf(st, conv)| + |body|)
  {
    body, fill := UnsignedLaid(st, w, size, conv, a);
    DirectiveText(st, w, size, conv, rest, a, args);
  }

  lemma PointerLaid(st: Style, w: string, size: Size, a: Arg) returns (body: string, fill: string)
    ensures Text(FieldOf(st, w, size), 'p', a) == Laid(st, "", "0x", body, fill)
    ensures IsNumber(body, 16, a.num % 0x1_0000_0000) && Fills(fill, st, w, 2 + |body|)
  {
    body := Numeral(a.num % 0x1_0000_0000, 16);
    NumeralIsNumber(a.num % 0x1_0000_0000, 16);
    fill := PaddedIsLaid(st, w, size, "", "0x", body);
  }

  /** `%p` in every form: 0x and the hexadecimal digits of the 32-bit address. */
  lemma PointerDirective(st: Style, w: string, size: Size, a: Arg, rest: string, args: seq<Arg>)
    returns (body: string, fill: string)
    requires IsWidth(w)
    ensures Render(START, Directive(st, w, size, 'p') + rest, [a] + args)
            == Laid(st, "", "0x", body, fill) + Render(START, rest, args)
    ensures IsNumber(body, 16, a.num % 0x1_0000_0000) && Fills(fill, st, w, 2 + |body|)
  {
    body, fill := PointerLaid(st, w, size, a);
    DirectiveText(st, w, size, 'p', rest, a, args);
  }

  lemma StringLaid(st: Style, w: string, size: Size, a: Arg) returns (body: string, fill: string)
    ensures Text(FieldOf(st, w, size), 's', a) == Laid(st, "", "", body, fill)
    ensures body == (match a.text case None => "(null)" case Some(s) => s) && Fills(fill, st, w, |body|)
  {
    body := match a.text case None => "(null)" case Some(s) => s;
    fill := PaddedIsLaid(st, w, size, "", "", body);
  }

  /** `%s` prints its string, or (null). */
  lemma StringDirective(st: Style, w: string, size: Size, a: Arg, rest: string, args: seq<Arg>)
    returns (body: string, fill: string)
    requires IsWidth(w)
    ensures Render(START, Directive(st, w, size, 's') + rest, [a] + args)
            == Laid(st, "", "", body, fill) + Render(START, rest, args)
    ensures body == (match a.text case None => "(null)" case Some(s) => s) && Fills(fill, st, w, |body|)
  {
    body, fill := StringLaid(st, w, size, a);
    DirectiveText(st, w, size, 's', rest, a, args);
  }

  lemma CharLaid(st: Style, w: string, size: Size, a: Arg) returns (body: string, fill: string)
    ensures Text(FieldOf(st, w, size), 'c', a) == Laid(st, "", "", body, fill)
    ensures |body| <= 1 && (body == "" <==> a.num % 256 == 0) && (body != "" ==> body[0] as int == a.num % 256)
    ensures Fills(fill, st, w, |body|)
  {
    body := if a.num % 256 == 0 then "" else [(a.num % 256) as char];
    fill := PaddedIsLaid(st, w, size, "", "", body);
  }

  /** `%c` prints its character, or nothing for NUL. */
  lemma CharDirective(st: Style, w: string, size: Size, a: Arg, rest: string, args: seq<Arg>)
    returns (body: string, fill: string)
    requires IsWidth(w)
    ensures Render(START, Directive(st, w, size, 'c') + rest, [a] + args)
            == Laid(st, "", "", body, fill) + Render(START, rest, args)
    ensures |body| <= 1 && (body == "" <==> a.num % 256 == 0) && (body != "" ==> body[0] as int == a.num % 256)
    ensures Fills(fill, st, w, |body|)
  {
    body, fill := CharLaid(st, w, size, a);
    DirectiveText(st, w, size, 'c', rest, a, args);
  }

  /** Any other character after the modifiers, the percent sign among them, prints as itself and takes no argument. */
  lemma OtherDirective(st: Style, w: string, size: Size, conv: char, rest: string, args: seq<Arg>)
    returns (fill: string)
    requires IsWidth(w) && conv !in "doupxsc" && conv !in "#-lz0123456789"
    ensures Render(START, Directive(st, w, size, conv) + rest, args)
            == Laid(st, "", "", [conv], fill) + Render(START, rest, args)
    ensures Fills(fill, st, w, 1)
  {
    ReadDirective(st, w, size, conv, rest, args);
    Conversion(FieldOf(st, w, size), conv, rest, args);
    fill := PaddedIsLaid(st, w, size, "", "", [conv]);
  }

  /** Text up to a percent sign prints as itself. */
  lemma {:induction false} TextBefore(text: string, rest: string, args: seq<Arg>)
    requires '%' !in text
    ensures Render(START, text + rest, args) == text + Render(START, rest, args)
    decreases |text|
  {
    if text == [] {
      assert text + rest == rest;
    } else {
      assert (text + rest)[1..] == text[1..] + rest;
      TextBefore(text[1..], rest, args);
    }
  }
}
