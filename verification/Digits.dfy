/**
 Base-2^16 numerals, most significant digit first, and the machine-word helpers
 shared by the long-long arithmetic routines.
 */
module Digits {

  /** One digit in base 2^16 (C: `unsigned short`). */
  type Digit = d: int | 0 <= d < 65536

  /** An `unsigned int`, an `unsigned long long` and a `long long`. */
  type Word = w: int | 0 <= w < 0x1_0000_0000
  type ULong = w: int | 0 <= w < 0x1_0000_0000_0000_0000
  type SLong = w: int | -0x8000_0000_0000_0000 <= w < 0x8000_0000_0000_0000

  /** Unsigned 32- and 64-bit wrap-around. */
  function Wrap32(x: int): Word {
    x % 0x1_0000_0000
  }

  function Wrap64(x: int): ULong {
    x % 0x1_0000_0000_0000_0000
  }

  /** Reinterpret an unsigned 64-bit pattern as two's complement. */
  function AsSigned(x: ULong): SLong {
    if x < 0x8000_0000_0000_0000 then x else x - 0x1_0000_0000_0000_0000
  }

  function HighHalf(x: Word): Digit {
    x / 65536
  }

  function LowHalf(x: Word): Digit {
    x % 65536
  }

  /** `(hi << 16) | lo`; the two halves occupy disjoint bits. */
  function Combine(hi: Digit, lo: Digit): Word {
    hi * 65536 + lo
  }

  /** 65536 to the k. */
  function Pow(k: nat): (p: nat)
    ensures p >= 1
  {
    if k == 0 then 1 else 65536 * Pow(k - 1)
  }

  /** 2 to the k. */
  function Pow2(k: nat): (p: nat)
    ensures p >= 1
  {
    if k == 0 then 1 else 2 * Pow2(k - 1)
  }

  /** The number a digit sequence denotes. */
  function Val(s: seq<Digit>): nat {
    if s == [] then 0 else Val(s[..|s| - 1]) * 65536 + s[|s| - 1]
  }

  lemma MulMono(a: int, b: int, c: int)
    requires a <= b && 0 <= c
    ensures a * c <= b * c
  {}

  lemma MulAssoc(a: int, b: int, c: int)
    ensures a * (b * c) == (a * b) * c
  {}

  lemma {:induction false} PowAdd(i: nat, j: nat)
    ensures Pow(i + j) == Pow(i) * Pow(j)
  {
    if i == 0 {
    } else {
      PowAdd(i - 1, j);
      assert Pow(i + j) == 65536 * Pow(i - 1 + j);
      MulAssoc(65536, Pow(i - 1), Pow(j));
    }
  }

  lemma {:induction false} Pow2Add(i: nat, j: nat)
    ensures Pow2(i + j) == Pow2(i) * Pow2(j)
  {
    if i == 0 {
    } else {
      Pow2Add(i - 1, j);
      assert Pow2(i + j) == 2 * Pow2(i - 1 + j);
      MulAssoc(2, Pow2(i - 1), Pow2(j));
    }
  }

  lemma Pow2Of16()
    ensures Pow2(16) == 65536
  {
    assert Pow2(4) == 16;
    Pow2Add(4, 4);
    Pow2Add(8, 8);
  }

  lemma SplitAlgebra(high: int, p: int, low: int, d: int)
    ensures (high * p + low) * 65536 + d == high * (65536 * p) + (low * 65536 + d)
  {}

  lemma {:induction false} ValSplit(s: seq<Digit>, k: nat)
    requires k <= |s|
    ensures Val(s) == Val(s[..k]) * Pow(|s| - k) + Val(s[k..])
  {
    if k == |s| {
      assert s[..k] == s;
    } else {
      var r := s[..|s| - 1];
      ValSplit(r, k);
      assert r[..k] == s[..k];
      assert s[k..][..|s[k..]| - 1] == r[k..];
      SplitAlgebra(Val(s[..k]), Pow(|r| - k), Val(r[k..]), s[|s| - 1]);
    }
  }

  /** Splitting off the most significant digit. */
  lemma ValHead(s: seq<Digit>)
    requires |s| >= 1
    ensures Val(s) == s[0] * Pow(|s| - 1) + Val(s[1..])
  {
    ValSplit(s, 1);
    assert s[..1] == [s[0]];
    assert Val([s[0]]) == s[0] by {
      assert [s[0]][..0] == [];
    }
  }

  lemma {:induction false} ValBound(s: seq<Digit>)
    ensures Val(s) < Pow(|s|)
  {
    if s != [] {
      ValBound(s[..|s| - 1]);
    }
  }

  predicate AllZero(s: seq<Digit>) {
    forall i :: 0 <= i < |s| ==> s[i] == 0
  }

  lemma {:induction false} ValAllZero(s: seq<Digit>)
    ensures AllZero(s) <==> Val(s) == 0
  {
    if s != [] {
      ValAllZero(s[..|s| - 1]);
      assert AllZero(s) <==> AllZero(s[..|s| - 1]) && s[|s| - 1] == 0;
    }
  }

  /** Leading zeros do not change a numeral's value. */
  lemma ValLeadingZeros(s: seq<Digit>, k: nat)
    requires k <= |s| && AllZero(s[..k])
    ensures Val(s) == Val(s[k..])
  {
    ValSplit(s, k);
    ValAllZero(s[..k]);
    ZeroTimes(Pow(|s| - k));
  }

  lemma ZeroTimes(p: int)
    ensures 0 * p == 0
  {}

  /** A number below 65536^k written with more than k digits starts with zeros. */
  lemma SmallMeansLeadingZeros(s: seq<Digit>, k: nat)
    requires k <= |s| && Val(s) < Pow(|s| - k)
    ensures AllZero(s[..k])
  {
    ValSplit(s, k);
    if Val(s[..k]) >= 1 {
      MulMono(1, Val(s[..k]), Pow(|s| - k));
    }
    ValAllZero(s[..k]);
  }

  lemma ValOfFour(a: Digit, b: Digit, c: Digit, d: Digit)
    ensures Val([a, b, c, d]) == Combine(a, b) * 0x1_0000_0000 + Combine(c, d)
  {
    var s := [a, b, c, d];
    assert s[..3] == [a, b, c] && s[..3][..2] == [a, b] && [a, b][..1] == [a] && [a][..0] == [];
    assert [a, b, c][..2] == [a, b];
    assert Val([a]) == a;
    assert Val([a, b]) == a * 65536 + b;
    assert Val([a, b, c]) == Val([a, b]) * 65536 + c;
  }

  // ---------------------------------------------------------------- buffers changed in place

  /** `s` with `mid` written over it at position `at`. */
  function Splice<T>(s: seq<T>, at: nat, mid: seq<T>): (r: seq<T>)
    requires at + |mid| <= |s|
    ensures |r| == |s|
    ensures forall k :: 0 <= k < |s| ==> r[k] == if at <= k < at + |mid| then mid[k - at] else s[k]
  {
    seq(|s|, k requires 0 <= k < |s| => if at <= k < at + |mid| then mid[k - at] else s[k])
  }

  lemma SpliceSlice<T>(s: seq<T>, at: nat, mid: seq<T>)
    requires at + |mid| <= |s|
    ensures Splice(s, at, mid)[at..at + |mid|] == mid
    ensures Splice(s, at, s[at..at + |mid|]) == s
  {}

  /** Store just before a splice: the splice grows to the left. */
  method StoreBefore<T>(u: array<T>, k: nat, d: T, ghost s: seq<T>, ghost mid: seq<T>)
    requires k + 1 + |mid| <= |s| == u.Length && u[..] == Splice(s, k + 1, mid)
    modifies u
    ensures u[..] == Splice(s, k, [d] + mid)
  {
    ghost var before := u[..];
    u[k] := d;
    assert u[..] == before[k := d];
  }

  /** Store just after a splice: the splice grows to the right. */
  method StoreAfter<T>(u: array<T>, k: nat, d: T, ghost at: nat, ghost s: seq<T>, ghost mid: seq<T>)
    requires k == at + |mid| < |s| == u.Length && u[..] == Splice(s, at, mid)
    modifies u
    ensures u[..] == Splice(s, at, mid + [d])
  {
    ghost var before := u[..];
    u[k] := d;
    assert u[..] == before[k := d];
  }

  /** A splice inside a splice. */
  lemma SpliceNest<T>(s: seq<T>, at: nat, mid: seq<T>, j: nat, inner: seq<T>)
    requires at + |mid| <= |s| && j + |inner| <= |mid|
    ensures Splice(Splice(s, at, mid), at + j, inner) == Splice(s, at, Splice(mid, j, inner))
    ensures Splice(s, at, mid)[at + j..at + j + |inner|] == mid[j..j + |inner|]
  {}
}
