/**
 The formatter behind `printf` (`__printf.c`) and its bounded sink (`snprintf.c`).
 The formatter is fed one character of the format at a time; every piece of text
 it makes goes through a send function that stores what still fits.
 */
module Printf {
  import opened Options
  import opened Digits
  import opened Numerals

  datatype Size = IntSize | LongSize | LongLongSize | SizeT

  /** The part of the formatter's state that lives from one format character to the next. */
  datatype Field = Field(inPct: bool, size: Size, spacing: nat, right: bool, zero: bool, alt: bool)

  const START := Field(false, IntSize, 0, false, false, false)

  /** A variable argument, as a number or as a string (None is NULL). */
  datatype Arg = Arg(num: int, text: Option<string>)

  // ---------------------------------------------------------------- what is printed

  predicate IsModifier(ch: char) {
    ch in "#-lz0123456789"
  }

  predicate IsInteger(ch: char) {
    ch in "doupx"
  }

  /** The effect of a modifier character on the field. */
  function Modify(f: Field, ch: char): Field {
    if ch == '#' then f.(alt := true)
    else if ch == '-' then f.(right := true)
    else if ch == 'l' then f.(size := if f.size == LongSize then LongLongSize else LongSize)
    else if ch == 'z' then f.(size := SizeT)
    else if ch == '0' && f.spacing == 0 then f.(zero := true)
    else f.(spacing := f.spacing * 10 + DigitValue(ch))
  }

  /** The signed argument; all sizes but long long are 32 bits. */
  function Signed(v: int, size: Size): int {
    if size == LongLongSize then AsSigned(Wrap64(v)) else ToInt(Wrap32(v))
  }

  function Unsigned(v: int, size: Size): ULong {
    if size == LongLongSize then Wrap64(v) else Wrap32(v)
  }

  function Base(ch: char): nat {
    if ch == 'o' then 8 else if ch == 'x' || ch == 'p' then 16 else 10
  }

  /** Magnitude and sign of the integer to print. */
  function Number(f: Field, ch: char, v: int): (ULong, bool) {
    if ch == 'p' then (Wrap32(v), false)
    else if ch == 'd' then
      var n := Signed(v, f.size);
      (if n < 0 then -n else n, n < 0)
    else (Unsigned(v, f.size), false)
  }

  function BasePrefix(f: Field, ch: char): string {
    if !f.alt && ch != 'p' then ""
    else if Base(ch) == 16 then "0x"
    else if Base(ch) == 8 then "0"
    else ""
  }

  function Repeat(c: char, n: nat): (s: string)
    ensures |s| == n
  {
    if n == 0 then [] else Repeat(c, n - 1) + [c]
  }

  lemma {:induction false} RepeatAt(c: char, n: nat, k: nat)
    requires k < n
    ensures Repeat(c, n)[k] == c
  {
    if k < n - 1 { RepeatAt(c, n - 1, k); }
  }

  /** Text in its field: spaces go before the prefixes, zeros after them, or the fill goes last. */
  function Padded(f: Field, prefix: string, prefix2: string, stuff: string): string {
    var len := |prefix| + |prefix2| + |stuff|;
    var fill := Repeat(if f.zero then '0' else ' ', if f.spacing > len then f.spacing - len else 0);
    (if !f.right && !f.zero then fill else "") + prefix + prefix2
    + (if !f.right && f.zero then fill else "") + stuff + (if f.right then fill else "")
  }

  function IntegerText(f: Field, ch: char, v: int): string {
    var n := Number(f, ch, v);
    Padded(f, if n.1 then "-" else "", BasePrefix(f, ch), Numeral(n.0, Base(ch)))
  }

  function First(args: seq<Arg>): Arg {
    if args == [] then Arg(0, None) else args[0]
  }

  function Rest(args: seq<Arg>): seq<Arg> {
    if args == [] then [] else args[1..]
  }

  /** A one-character C string; a NUL makes it empty. */
  function CharText(v: int): string {
    if v % 256 == 0 then "" else [(v % 256) as char]
  }

  function StringText(a: Arg): string {
    if a.text == None then "(null)" else a.text.value
  }

  /** The text one format character produces. */
  function Text(f: Field, ch: char, a: Arg): string {
    if !f.inPct then (if ch == '%' then "" else [ch])
    else if IsModifier(ch) then ""
    else if IsInteger(ch) then IntegerText(f, ch, a.num)
    else if ch == 's' then Padded(f, "", "", StringText(a))
    else Padded(f, "", "", if ch == 'c' then CharText(a.num) else [ch])
  }

  function NextField(f: Field, ch: char): Field {
    if !f.inPct then (if ch == '%' then f.(inPct := true) else f)
    else if IsModifier(ch) then Modify(f, ch)
    else START
  }

  /** The character takes an argument. */
  predicate Takes(f: Field, ch: char) {
    f.inPct && !IsModifier(ch) && (IsInteger(ch) || ch == 's' || ch == 'c')
  }

  /** Everything a format and its arguments print. */
  function Render(f: Field, fmt: string, args: seq<Arg>): string
    decreases |fmt|
  {
    if fmt == [] then ""
    else Text(f, fmt[0], First(args))
         + Render(NextField(f, fmt[0]), fmt[1..], if Takes(f, fmt[0]) then Rest(args) else args)
  }

  // ---------------------------------------------------------------- laws

  /** A field is as wide as asked for, or as its text when that is wider. */
  lemma FieldWidth(f: Field, prefix: string, prefix2: string, stuff: string)
    ensures var len := |prefix| + |prefix2| + |stuff|;
            |Padded(f, prefix, prefix2, stuff)| == if f.spacing > len then f.spacing else len
  {}

  lemma NoWidth(prefix: string, stuff: string)
    ensures Padded(START.(inPct := true), prefix, "", stuff) == prefix + stuff
  {}

  /** Text without a percent sign prints as itself. */
  lemma {:induction false} PlainText(fmt: string, args: seq<Arg>)
    requires '%' !in fmt
    ensures Render(START, fmt, args) == fmt
  {
    if fmt != [] { PlainText(fmt[1..], args); }
  }

  /** `%d` prints the decimal text of any 32-bit integer, and the rest of the format follows. */
  lemma DecimalField(n: int, a: Arg, rest: string, args: seq<Arg>)
    requires -0x8000_0000 <= n < 0x8000_0000 && a.num == n
    ensures Render(START, "%d" + rest, [a] + args) == Decimal(n) + Render(START, rest, args)
  {
    var fmt, f := "%d" + rest, START.(inPct := true);
    assert fmt[1..] == "d" + rest && ("d" + rest)[1..] == rest && ([a] + args)[1..] == args;
    assert Text(f, 'd', a) == Decimal(n) by {
      ToIntOfWrap(n);
      NoWidth(if n < 0 then "-" else "", Numeral(if n < 0 then -n else n, 10));
    }
    assert NextField(f, 'd') == START && Takes(f, 'd');
    assert Render(f, "d" + rest, [a] + args) == Decimal(n) + Render(START, rest, args);
  }

  /** Reading back what `%d` printed gives the integer again, also when other text follows. */
  lemma PrintThenParse(n: int, a: Arg, rest: string, args: seq<Arg>)
    requires -0x8000_0000 <= n < 0x8000_0000 && a.num == n
    requires Render(START, rest, args) != [] ==> !IsDecimal(Render(START, rest, args)[0])
    ensures Atoi(Render(START, "%d" + rest, [a] + args)) == n
  {
    DecimalField(n, a, rest, args);
    AtoiOfDecimal(n, Render(START, rest, args));
  }

  // ---------------------------------------------------------------- the formatter

  function Min(a: nat, b: nat): nat {
    if a < b then a else b
  }

  lemma Join(s: string, a: string, b: string, c: string, d: string, e: string, f: string)
    ensures s + a + b + c + d + e + f == s + (a + b + c + d + e + f)
  {}

  /** One more character of the format. */
  lemma RenderAt(sent: string, f: Field, fmt: string, i: nat, args: seq<Arg>)
    requires i < |fmt|
    ensures sent + Render(f, fmt[i..], args)
            == (sent + Text(f, fmt[i], First(args)))
               + Render(NextField(f, fmt[i]), fmt[i + 1..], if Takes(f, fmt[i]) then Rest(args) else args)
  {
    assert fmt[i..][1..] == fmt[i + 1..];
    var rest := Render(NextField(f, fmt[i]), fmt[i + 1..], if Takes(f, fmt[i]) then Rest(args) else args);
    Assoc(sent, Text(f, fmt[i], First(args)), rest);
  }

  lemma Assoc(a: string, b: string, c: string)
    ensures a + (b + c) == (a + b) + c
  {}

  class Printer {
    const buf: array<char>
    const buflen: nat
    var bufpos: nat
    var charcount: nat
    var field: Field
    var args: seq<Arg>
    ghost var sent: string
    ghost const original: seq<char>

    /** The buffer holds as much of the text as fits; behind it nothing has changed. */
    ghost predicate Stored()
      reads this, buf
    {
      && buflen <= buf.Length == |original|
      && bufpos == Min(buflen, |sent|)
      && buf[..bufpos] == sent[..bufpos] && buf[bufpos..] == original[bufpos..]
    }

    /** And the count is of all the text, stored or not. */
    ghost predicate Valid()
      reads this, buf
    {
      Stored() && charcount == |sent|
    }

    constructor (buf: array<char>, len: nat, args: seq<Arg>)
      requires len <= buf.Length
      ensures Valid() && this.buf == buf && buflen == (if len == 0 then 0 else len - 1)
      ensures sent == "" && field == START && this.args == args && original == buf[..]
    {
      original := buf[..];
      this.buf, buflen, bufpos := buf, if len == 0 then 0 else len - 1, 0;
      charcount, field, this.args, sent := 0, START, args, "";
    }

    /** `__snprintf_send`, one character. */
    method SendOne(c: char)
      requires Stored()
      modifies this`bufpos, this`sent, buf
      ensures Stored() && sent == old(sent) + [c]
    {
      if bufpos < buflen {
        buf[bufpos] := c;
        bufpos := bufpos + 1;
      }
      sent := sent + [c];
    }

    /** `__pf_print`: send the text and count it. */
    method Print(txt: string)
      requires Valid()
      modifies this`bufpos, this`sent, this`charcount, buf
      ensures Valid() && sent == old(sent) + txt
    {
      var i := 0;
      while i < |txt|
        invariant i <= |txt| && sent == old(sent) + txt[..i] && charcount == old(charcount) && Stored()
      {
        SendOne(txt[i]);
        i := i + 1;
      }
      charcount := charcount + |txt|;
    }

    /** `__pf_fill`. */
    method Fill(spc: nat)
      requires Valid()
      modifies this`bufpos, this`sent, this`charcount, buf
      ensures Valid() && sent == old(sent) + Repeat(if field.zero then '0' else ' ', spc)
    {
      var f := if field.zero then '0' else ' ';
      var i := 0;
      while i < spc
        invariant i <= spc && Valid() && sent == old(sent) + Repeat(f, i)
      {
        Print([f]);
        i := i + 1;
      }
    }

    /** Pad when there is something to pad and this is the place for it. */
    method FillIf(here: bool, spc: nat)
      requires Valid()
      modifies this`bufpos, this`sent, this`charcount, buf
      ensures Valid() && sent == old(sent) + if here then Repeat(if field.zero then '0' else ' ', spc) else ""
    {
      if spc > 0 && here { Fill(spc); }
    }

    /** `__pf_printstuff`. */
    method PrintStuff(prefix: string, prefix2: string, stuff: string)
      requires Valid()
      modifies this`bufpos, this`sent, this`charcount, buf
      ensures Valid() && sent == old(sent) + Padded(field, prefix, prefix2, stuff)
    {
      var len := |prefix| + |prefix2| + |stuff|;
      var spc := field.spacing;
      if spc > len { spc := spc - len; } else { spc := 0; }
      ghost var fill := Repeat(if field.zero then '0' else ' ', spc);
      FillIf(!field.right && !field.zero, spc);
      Print(prefix);
      Print(prefix2);
      FillIf(!field.right && field.zero, spc);
      Print(stuff);
      FillIf(field.right, spc);
      Join(old(sent), if !field.right && !field.zero then fill else "", prefix, prefix2,
           if !field.right && field.zero then fill else "", stuff, if field.right then fill else "");
    }

    /** `__pf_getnum`, `__pf_setbase` and `__pf_printnum` for one integer conversion. */
    method PrintInteger(ch: char, v: int)
      requires Valid() && IsInteger(ch)
      modifies this`bufpos, this`sent, this`charcount, buf
      ensures Valid() && sent == old(sent) + IntegerText(field, ch, v)
    {
      var number := Number(field, ch, v);
      var digits := new char[NUMBER_BUF_SIZE];
      var x := PrintDigits(digits, number.0, Base(ch));
      PrintStuff(if number.1 then "-" else "", BasePrefix(field, ch), digits[x..22]);
    }

    /** `__pf_send`: one character of the format. */
    method SendChar(ch: char)
      requires Valid()
      modifies this, buf
      ensures Valid() && sent == old(sent) + Text(old(field), ch, First(old(args)))
      ensures field == NextField(old(field), ch)
      ensures args == if Takes(old(field), ch) then Rest(old(args)) else old(args)
    {
      if !field.inPct && ch != '%' {
        Print([ch]);
      } else if !field.inPct {
        field := field.(inPct := true);
      } else if IsModifier(ch) {
        field := Modify(field, ch);
      } else {
        var a := First(args);
        if IsInteger(ch) {
          PrintInteger(ch, a.num);
        } else if ch == 's' {
          PrintStuff("", "", StringText(a));
        } else {
          PrintStuff("", "", if ch == 'c' then CharText(a.num) else [ch]);
        }
        if Takes(field, ch) { args := Rest(args); }
        field := START;
      }
    }

    /** `__vprintf`: the whole format. */
    method Run(fmt: string)
      requires Valid() && field == START && sent == ""
      modifies this, buf
      ensures Valid() && sent == Render(START, fmt, old(args))
    {
      var i := 0;
      while i < |fmt|
        invariant i <= |fmt| && Valid()
        invariant Render(START, fmt, old(args)) == sent + Render(field, fmt[i..], args)
      {
        RenderAt(sent, field, fmt, i, args);
        SendChar(fmt[i]);
        i := i + 1;
      }
    }
  }

  /**
   `vsnprintf`: the first min(len - 1, total) characters and a NUL are stored, nothing
   else in the buffer changes, and the result is the total, stored or not.
   */
  method Vsnprintf(buf: array<char>, len: nat, fmt: string, args: seq<Arg>) returns (chars: nat)
    requires len <= buf.Length
    modifies buf
    ensures chars == |Render(START, fmt, args)|
    ensures len == 0 ==> buf[..] == old(buf[..])
    ensures len > 0 ==>
              var out := Render(START, fmt, args);
              var n := Min(len - 1, |out|);
              buf[..] == out[..n] + ['\0'] + old(buf[..])[n + 1..]
  {
    var p := new Printer(buf, len, args);
    p.Run(fmt);
    if len > 0 { buf[p.bufpos] := '\0'; }
    chars := p.charcount;
  }
}
