/**
 64-bit multiplication by Karatsuba's three half-size products (Knuth vol. 2,
 section 4.3.3): `__lmulq` on 32-bit words, `__muldi3` on signed 64-bit words.
 */
module Multiply {
  import opened Digits

  /** A 64-bit value held as two words. */
  function Pair(h: Word, l: Word): ULong {
    h * 0x1_0000_0000 + l
  }

  lemma WrapCongruent64(x: int, y: int, k: int)
    requires x == y + k * 0x1_0000_0000_0000_0000
    ensures Wrap64(x) == Wrap64(y)
  {}

  lemma WrapCongruent32(x: int, y: int, k: int)
    requires x == y + k * 0x1_0000_0000
    ensures Wrap32(x) == Wrap32(y)
  {}

  /** Every word differs from its wrapped form by a multiple of 2^32. */
  lemma WrapExcess32(x: int) returns (k: int)
    ensures x == Wrap32(x) + k * 0x1_0000_0000
  {
    k := x / 0x1_0000_0000;
  }

  /** LHUP(x): the low half of x moved to the high half. */
  function LowHalfUp(x: Word): Word {
    LowHalf(x) * 65536
  }

  /** `prod += x << 16`, with the carry taken from the wrapped low word; `k` counts 64-bit wrap-arounds. */
  method AddUp(h: Word, l: Word, x: Word) returns (h': Word, l': Word, ghost k: int)
    ensures Pair(h', l') == Pair(h, l) + x * 65536 - k * 0x1_0000_0000_0000_0000
  {
    var was: int := l;
    l' := Wrap32(was + LowHalfUp(x));
    var high: int := h;
    var carry := if l' < was then 1 else 0;
    h' := Wrap32(high + HighHalf(x) + carry);
    assert x == HighHalf(x) * 65536 + LowHalf(x);
    assert was + LowHalfUp(x) == l' + carry * 0x1_0000_0000;
    k := WrapExcess32(high + HighHalf(x) + carry);
  }

  /** `prod -= x << 16`, with the borrow taken from the wrapped low word. */
  method SubtractUp(h: Word, l: Word, x: Word) returns (h': Word, l': Word, ghost k: int)
    ensures Pair(h', l') == Pair(h, l) - x * 65536 - k * 0x1_0000_0000_0000_0000
  {
    var was: int := l;
    l' := Wrap32(was - LowHalfUp(x));
    var high: int := h;
    var borrow := if l' > was then 1 else 0;
    h' := Wrap32(high - (HighHalf(x) + borrow));
    assert x == HighHalf(x) * 65536 + LowHalf(x);
    assert was - LowHalfUp(x) == l' - borrow * 0x1_0000_0000;
    k := WrapExcess32(high - (HighHalf(x) + borrow));
  }

  lemma PairCongruent(x: int, h: Word, l: Word, k: int)
    requires x == h * 0x1_0000_0000 + l + k * 0x1_0000_0000_0000_0000
    ensures Wrap64(x) == Pair(h, l)
  {
    WrapCongruent64(x, Pair(h, l), k);
  }

  /** (u1 - u0)(v0 - v1) as the code computes it: a product of magnitudes and its sign. */
  method MiddleTerm(u1: Word, u0: Word, v1: Word, v0: Word) returns (udiff: Word, vdiff: Word, neg: bool)
    ensures udiff <= if u1 >= u0 then u1 else u0
    ensures vdiff <= if v1 >= v0 then v1 else v0
    ensures (u1 - u0) * (v0 - v1) == Signed(udiff * vdiff, neg)
  {
    if u1 >= u0 {
      udiff, neg := u1 - u0, false;
    } else {
      udiff, neg := u0 - u1, true;
    }
    if v0 >= v1 {
      vdiff := v0 - v1;
    } else {
      vdiff, neg := v1 - v0, !neg;
    }
    MiddleSign(u1 - u0, v0 - v1, udiff, vdiff);
  }

  lemma MiddleSign(x: int, y: int, ax: int, ay: int)
    requires ax == (if x >= 0 then x else -x) && ay == (if y >= 0 then y else -y)
    ensures x * y == Signed(ax * ay, (x < 0) != (y < 0))
  {}

  /** Karatsuba's identity in base b. */
  lemma Karatsuba(u1: int, u0: int, v1: int, v0: int, b: int)
    ensures (u1 * b + u0) * (v1 * b + v0) ==
            u1 * v1 * (b * b) + (u1 * v1 + (u1 - u0) * (v0 - v1) + u0 * v0) * b + u0 * v0
  {
    assert (u1 - u0) * (v0 - v1) == u1 * v0 - u1 * v1 - u0 * v0 + u0 * v1;
    assert (u1 * b + u0) * (v1 * b + v0) == (u1 * b) * (v1 * b) + (u1 * b) * v0 + u0 * (v1 * b) + u0 * v0;
    assert (u1 * b) * (v1 * b) == (u1 * v1) * (b * b);
    assert (u1 * b) * v0 == (u1 * v0) * b && u0 * (v1 * b) == (u0 * v1) * b;
    assert (u1 * v0 + u0 * v1) * b == (u1 * v0) * b + (u0 * v1) * b;
  }

  lemma DigitProduct(x: int, y: int)
    requires 0 <= x <= 65535 && 0 <= y <= 65535
    ensures 0 <= x * y <= 65535 * 65535
  {
    MulMono(x, 65535, y);
    MulMono(0, x, y);
  }

  lemma WordProduct(x: int, y: int)
    requires 0 <= x < 0x1_0000_0000 && 0 <= y < 0x1_0000_0000
    ensures 0 <= x * y < 0x1_0000_0000_0000_0000
  {
    MulMono(x, 0xffff_ffff, y);
    MulMono(0, x, y);
  }

  function Signed(x: int, neg: bool): int {
    if neg then -x else x
  }

  /** Native `unsigned int` multiplication. */
  function Mul32(x: int, y: int): Word {
    Wrap32(x * y)
  }

  /** Sum the shifted partial products in a wrapped pair of words. */
  method Assemble(high: Word, mid: Word, neg: bool, low: Word) returns (p: ULong, ghost k: int)
    ensures p == high * 0x1_0000_0000 + high * 65536 + Signed(mid, neg) * 65536 + low * 65536 + low
                 - k * 0x1_0000_0000_0000_0000
  {
    ghost var k1, k2, k3, k4;
    var prodh, prodl;
    prodh, prodl, k1 := HighTwice(high);
    if neg {
      prodh, prodl, k2 := SubtractUp(prodh, prodl, mid);
    } else {
      prodh, prodl, k2 := AddUp(prodh, prodl, mid);
    }
    prodh, prodl, k3 := AddUp(prodh, prodl, low);
    prodh, prodl, k4 := AddLow(prodh, prodl, low);
    p, k := Pair(prodh, prodl), k1 + k2 + k3 + k4;
  }

  lemma ExactMul32(x: int, y: int)
    requires 0 <= x <= 65535 && 0 <= y <= 65535
    ensures Mul32(x, y) == x * y
  {
    DigitProduct(x, y);
  }

  /** `__lmulq`: the exact 64-bit product of two 32-bit words. */
  method LMulQ(u: Word, v: Word) returns (p: ULong)
    ensures p == u * v
  {
    var u1, u0, v1, v0 := HighHalf(u), LowHalf(u), HighHalf(v), LowHalf(v);
    var low := Mul32(u0, v0);
    if u1 == 0 && v1 == 0 {
      ExactMul32(u0, v0);
      return low;
    }
    var udiff, vdiff, neg := MiddleTerm(u1, u0, v1, v0);
    var mid := Mul32(udiff, vdiff);
    var high := Mul32(u1, v1);
    ghost var k;
    p, k := Assemble(high, mid, neg, low);
    LMulQAlgebra(u, v, u1, u0, v1, v0, udiff, vdiff, neg, high, mid, low, p, k);
  }

  lemma LMulQAlgebra(u: Word, v: Word, u1: Digit, u0: Digit, v1: Digit, v0: Digit, ud: Digit, vd: Digit, neg: bool,
                     high: Word, mid: Word, low: Word, p: ULong, k: int)
    requires u == u1 * 65536 + u0 && v == v1 * 65536 + v0
    requires (u1 - u0) * (v0 - v1) == Signed(ud * vd, neg)
    requires high == Mul32(u1, v1) && mid == Mul32(ud, vd) && low == Mul32(u0, v0)
    requires p == high * 0x1_0000_0000 + high * 65536 + Signed(mid, neg) * 65536 + low * 65536 + low
                  - k * 0x1_0000_0000_0000_0000
    ensures p == u * v
  {
    ExactMul32(u1, v1);
    ExactMul32(u0, v0);
    ExactMul32(ud, vd);
    KaratsubaWords(u, v, u1, u0, v1, v0, high, Signed(mid, neg), low, p, k);
  }

  lemma NoWrap(p: ULong, x: int, k: int)
    requires 0 <= x < 0x1_0000_0000_0000_0000 && p == x - k * 0x1_0000_0000_0000_0000
    ensures p == x
  {}

  lemma KaratsubaWords(u: Word, v: Word, u1: int, u0: int, v1: int, v0: int, high: int, m: int, low: int, p: ULong, k: int)
    requires u == u1 * 65536 + u0 && v == v1 * 65536 + v0
    requires high == u1 * v1 && m == (u1 - u0) * (v0 - v1) && low == u0 * v0
    requires p == high * 0x1_0000_0000 + high * 65536 + m * 65536 + low * 65536 + low - k * 0x1_0000_0000_0000_0000
    ensures p == u * v
  {
    var x := high * 0x1_0000_0000 + high * 65536 + m * 65536 + low * 65536 + low;
    assert x == u * v by { Karatsuba(u1, u0, v1, v0, 65536); }
    WordProduct(u, v);
    NoWrap(p, x, k);
  }

  /** The low 64 bits of a product of two-word numbers need the middle term only modulo 2^32. */
  lemma TwoWordProduct(u1: Word, u0: Word, v1: Word, v0: Word, m: int, high: Word, low: ULong, h: Word)
    requires high == Mul32(u1, v1) && low == u0 * v0
    requires Wrap32(m) == Wrap32((u1 - u0) * (v0 - v1))
    requires h == Wrap32(high + m + low % 0x1_0000_0000 + low / 0x1_0000_0000)
    ensures Pair(h, low % 0x1_0000_0000) == Wrap64(Pair(u1, u0) * Pair(v1, v0))
  {
    var hx, mx := u1 * v1, (u1 - u0) * (v0 - v1);
    Karatsuba(u1, u0, v1, v0, 0x1_0000_0000);
    var ll, lh := low % 0x1_0000_0000, low / 0x1_0000_0000;
    var k1 := WrapExcess32(hx);
    var k2 := WrapExcess32(m);
    var k3 := WrapExcess32(mx);
    var k4 := WrapExcess32(high + m + ll + lh);
    // hx + mx + low == h modulo 2^32, up to the known multiples
    assert hx + mx + low + lh == h + (k1 + k3 - k2 + k4 + lh) * 0x1_0000_0000;
    PairCongruent(Pair(u1, u0) * Pair(v1, v0), h, ll, hx + (k1 + k3 - k2 + k4 + lh));
  }

  /** `__muldi3`: the product of two signed 64-bit numbers, modulo 2^64. */
  method MulDi3(a: SLong, b: SLong) returns (r: SLong)
    ensures r == AsSigned(Wrap64(a * b))
  {
    var negall := false;
    var u: ULong, v: ULong;
    if a >= 0 {
      u := a;
    } else {
      u, negall := 0 - a, true;
    }
    if b >= 0 {
      v := b;
    } else {
      v, negall := 0 - b, !negall;
    }
    var prod: ULong := MulMagnitudes(u, v);
    if negall {
      NegatedProduct(u * v);
      prod := Wrap64(0 - prod);
    }
    r := AsSigned(prod);
    MiddleSign(a, b, u, v);
  }

  lemma NegatedProduct(x: int)
    ensures Wrap64(0 - Wrap64(x)) == Wrap64(-x)
  {
    WrapCongruent64(0 - Wrap64(x), -x, x / 0x1_0000_0000_0000_0000);
  }

  method MulMagnitudes(u: ULong, v: ULong) returns (prod: ULong)
    ensures prod == Wrap64(u * v)
  {
    var u1, u0 := u / 0x1_0000_0000, u % 0x1_0000_0000;
    var v1, v0 := v / 0x1_0000_0000, v % 0x1_0000_0000;
    var low := LMulQ(u0, v0);
    if u1 == 0 && v1 == 0 {
      assert u == u0 && v == v0;
      return low;
    }
    var udiff, vdiff, negmid := MiddleTerm(u1, u0, v1, v0);
    var mid := Mul32(udiff, vdiff);
    var high := Mul32(u1, v1);
    var m := Signed(mid, negmid);
    MiddleWrapped(udiff, vdiff, negmid);
    var wide: int := high;
    var h := Wrap32(wide + m + low % 0x1_0000_0000 + low / 0x1_0000_0000);
    TwoWordProduct(u1, u0, v1, v0, m, high, low, h);
    prod := Pair(h, low % 0x1_0000_0000);
    assert Pair(u1, u0) == u && Pair(v1, v0) == v;
  }

  lemma MiddleWrapped(x: int, y: int, neg: bool)
    ensures Wrap32(Signed(Mul32(x, y), neg)) == Wrap32(Signed(x * y, neg))
  {
    var xy := x * y;
    if neg { WrapCongruent32(0 - Wrap32(xy), -xy, xy / 0x1_0000_0000); }
  }

  /** `prod = (high << 32) + (high << 16)`. */
  method HighTwice(high: Word) returns (h: Word, l: Word, ghost k: int)
    ensures Pair(h, l) == high * 0x1_0000_0000 + high * 65536 - k * 0x1_0000_0000_0000_0000
  {
    var wide: int := high;
    h, l := Wrap32(wide + HighHalf(high)), LowHalfUp(high);
    k := WrapExcess32(wide + HighHalf(high));
  }

  /** `if ((prodl += low) < low) prodh++`. */
  method AddLow(h: Word, l: Word, low: Word) returns (h': Word, l': Word, ghost k: int)
    ensures Pair(h', l') == Pair(h, l) + low - k * 0x1_0000_0000_0000_0000
  {
    var wl: int, wh: int := l, h;
    l' := Wrap32(wl + low);
    var carry := if l' < low then 1 else 0;
    h' := Wrap32(wh + carry);
    assert wl + low == l' + carry * 0x1_0000_0000;
    k := WrapExcess32(wh + carry);
  }
}
