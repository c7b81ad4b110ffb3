/**
 64-bit division in base 2^16: Knuth's Algorithm D (vol. 2, section 4.3.1) as
 `__qdivrem` runs it on five-digit buffers, and the signed wrappers.
 */
module Division {
  import opened Digits
  import opened Options

  // ---------------------------------------------------------------- D3: trial quotient digit

  /** The number two or three leading digits denote. */
  function Top2(a: int, b: int): int {
    a * 65536 + b
  }

  function Top3(a: int, b: int, c: int): int {
    Top2(a, b) * 65536 + c
  }

  /** qhat is the quotient num / den, capped at 65535. */
  ghost predicate IsTrialDigit(qhat: int, num: nat, den: nat) {
    && 0 <= qhat <= 65535
    && qhat * den <= num
    && (qhat == 65535 || num < (qhat + 1) * den)
  }

  /** rhat is what qhat*v1 leaves of the top two digits, and the true digit is not above qhat. */
  ghost predicate Trial(u01: int, u2: Digit, v1: Digit, v2: Digit, qhat: int, rhat: int) {
    && 0 <= qhat <= 65536
    && rhat == u01 - qhat * v1
    && (qhat >= 65535 || u01 * 65536 + u2 < (qhat + 1) * (v1 * 65536 + v2))
  }

  lemma TrialStart(u01: nat, u2: Digit, v1: Digit, v2: Digit)
    requires v1 > 0 && u01 < v1 * 65536
    ensures Trial(u01, u2, v1, v2, u01 / v1, u01 % v1) && u01 / v1 <= 65535
  {
    var q, r := u01 / v1, u01 % v1;
    assert u01 == q * v1 + r;
    if q >= 65536 { MulMono(65536, q, v1); }
    if q < 0 { MulMono(q, -1, v1); }
    assert (q + 1) * v1 >= u01 + 1;
    assert (q + 1) * (v1 * 65536 + v2) == ((q + 1) * v1) * 65536 + (q + 1) * v2;
    MulMono(0, q + 1, v2);
  }

  /** Multiplying out the two-digit test: it compares qhat times the top divisor digits with the dividend's. */
  lemma TrialTest(u01: int, u2: Digit, v1: Digit, v2: Digit, q: int, r: int)
    requires r == u01 - q * v1
    ensures q * (v1 * 65536 + v2) - (u01 * 65536 + u2) == q * v2 - (r * 65536 + u2)
  {
    assert q * (v1 * 65536 + v2) == (q * v1) * 65536 + q * v2;
  }

  lemma TrialDecrement(u01: int, u2: Digit, v1: Digit, v2: Digit, q: int, r: int)
    requires Trial(u01, u2, v1, v2, q, r) && r >= 0
    requires q == 65536 || q * v2 > r * 65536 + u2
    ensures Trial(u01, u2, v1, v2, q - 1, r + v1)
  {
    TrialTest(u01, u2, v1, v2, q, r);
    assert (q - 1) * v1 == q * v1 - v1;
  }

  lemma TrialEnd(u01: int, u2: Digit, v1: Digit, v2: Digit, q: int, r: int)
    requires Trial(u01, u2, v1, v2, q, r) && q <= 65535 && 0 <= u01
    requires r >= 65536 || q * v2 <= r * 65536 + u2
    ensures IsTrialDigit(q, u01 * 65536 + u2, v1 * 65536 + v2)
  {
    TrialTest(u01, u2, v1, v2, q, r);
    MulMono(q, 65535, v2);
  }

  /** The quotient of the top two digits by the top divisor digit, which the loop corrects. */
  function FirstGuess(u0: Digit, u1: Digit, v1: Digit): int
    requires v1 > 0
  {
    if u0 == v1 then 65536 else (u0 * 65536 + u1) / v1
  }

  /** The correction loop, entered with a guess known too big or still to be tested. */
  method CorrectGuess(guess: Word, rest: Digit, first: bool, ghost u01: nat, u2: Digit, v1: Digit, v2: Digit)
    returns (qhat: Word)
    requires v1 >= 32768 && Trial(u01, u2, v1, v2, guess, rest) && (first <==> guess == 65536)
    ensures IsTrialDigit(qhat, u01 * 65536 + u2, v1 * 65536 + v2) && guess - 2 <= qhat <= guess
  {
    qhat := guess;
    var rhat: Word := rest;
    var tooBig := first;
    if !first { tooBig := TestTooBig(qhat, rhat, u2, v2); }
    ghost var corrections := 0;
    while tooBig
      invariant Trial(u01, u2, v1, v2, qhat, rhat)
      invariant rhat < 65536
      invariant tooBig ==> qhat == 65536 || qhat * v2 > rhat * 65536 + u2
      invariant !tooBig ==> qhat <= 65535 && qhat * v2 <= rhat * 65536 + u2
      invariant 0 <= corrections && corrections * 32768 <= rhat && qhat + corrections == guess
      decreases 65536 - rhat
    {
      TrialDecrement(u01, u2, v1, v2, qhat, rhat);
      qhat := qhat - 1;
      rhat := rhat + v1;
      corrections := corrections + 1;
      if rhat >= 65536 {
        break;
      }
      tooBig := TestTooBig(qhat, rhat, u2, v2);
    }
    TrialEnd(u01, u2, v1, v2, qhat, rhat);
  }

  /** The divide-then-correct loop finds the capped three-by-two quotient, at most two below its first guess. */
  method TrialQuotient(u0: Digit, u1: Digit, u2: Digit, v1: Digit, v2: Digit)
    returns (qhat: Word)
    requires v1 >= 32768 && u0 <= v1
    ensures IsTrialDigit(qhat, Top3(u0, u1, u2), Top2(v1, v2))
    ensures FirstGuess(u0, u1, v1) - 2 <= qhat <= FirstGuess(u0, u1, v1)
  {
    ghost var u01 := u0 * 65536 + u1;
    if u0 == v1 {
      qhat := CorrectGuess(65536, u1, true, u01, u2, v1, v2);
    } else {
      var nn := Combine(u0, u1);
      TrialStart(nn, u2, v1, v2);
      qhat := CorrectGuess(nn / v1, nn % v1, false, u01, u2, v1, v2);
    }
  }

  /** The 32-bit product in the loop test does not wrap. */
  method TestTooBig(qhat: Word, rhat: Digit, u2: Digit, v2: Digit) returns (tooBig: bool)
    requires qhat <= 65535
    ensures tooBig <==> qhat * v2 > rhat * 65536 + u2
  {
    MulMono(v2, 65535, qhat);
    MulMono(0, v2, qhat);
    tooBig := Wrap32(v2 * qhat) > Combine(rhat, u2);
  }

  lemma UpperBound(qhat: int, num: nat, den: nat, p: nat, uLow: nat, vLow: nat)
    requires uLow < p && 0 <= qhat && num < (qhat + 1) * den
    ensures num * p + uLow < (qhat + 1) * (den * p + vLow)
  {
    MulMono(num + 1, (qhat + 1) * den, p);
    assert ((qhat + 1) * den) * p == (qhat + 1) * (den * p);
    assert (qhat + 1) * (den * p + vLow) == (qhat + 1) * (den * p) + (qhat + 1) * vLow;
    MulMono(0, qhat + 1, vLow);
  }

  lemma LowerBound(qhat: int, num: nat, den: nat, p: nat, uLow: nat, vLow: nat)
    requires vLow < p && 1 <= qhat <= den && qhat * den <= num
    ensures (qhat - 1) * (den * p + vLow) <= num * p + uLow
  {
    var a := qhat - 1;
    MulMono(qhat * den, num, p);
    MulMono(vLow, p, a);
    MulMono(a, den, p);
    assert a * (den * p + vLow) == a * (den * p) + a * vLow;
    assert (qhat * den) * p == qhat * (den * p);
    assert a * (den * p) == qhat * (den * p) - den * p;
  }

  lemma QuotientBetween(u: int, v: int, q: int)
    requires v > 0 && (q - 1) * v <= u < (q + 1) * v
    ensures u / v == q || u / v == q - 1
  {
    var k := u / v;
    assert k * v <= u < k * v + v;
    assert (k + 1) * v == k * v + v;
    if k >= q + 1 { MulMono(q + 1, k, v); }
    if k <= q - 2 { MulMono(k + 1, q - 1, v); }
  }

  /** Knuth's theorem: the trial digit is the true quotient digit or one more, whatever the lower digits. */
  lemma TrialDigitOffByAtMostOne(qhat: int, num: nat, den: nat, p: nat, uLow: nat, vLow: nat, u: nat, v: nat)
    requires den >= 65536 && p >= 1 && uLow < p && vLow < p
    requires u == num * p + uLow && v == den * p + vLow && u < v * 65536
    requires IsTrialDigit(qhat, num, den)
    ensures v > 0 && u / v in {qhat, qhat - 1}
  {
    MulMono(1, den, p);
    if qhat < 65535 { UpperBound(qhat, num, den, p, uLow, vLow); }
    if qhat >= 1 { LowerBound(qhat, num, den, p, uLow, vLow); }
    assert (qhat + 1) * v > u;
    QuotientBetween(u, v, qhat);
  }

  // ---------------------------------------------------------------- D4: multiply and subtract

  /** One 32-bit wrapped step of the loop: the digit and the borrow. */
  function SubtractStep(x: Digit, y: Digit, q: Digit, t: Digit): (Digit, Digit) {
    var w := Wrap32(x - y * q - t);
    (LowHalf(w), (65536 - HighHalf(w)) % 65536)
  }

  /** us - q*vs on equally long numerals, low digit first in 32-bit wrapped steps: digits and borrow out. */
  function SubtractDigits(us: seq<Digit>, vs: seq<Digit>, q: Digit): (r: (seq<Digit>, Digit))
    requires |us| == |vs|
    ensures |r.0| == |us|
  {
    if us == [] then ([], 0)
    else
      var (rest, t) := SubtractDigits(us[1..], vs[1..], q);
      var (d, t') := SubtractStep(us[0], vs[0], q, t);
      ([d] + rest, t')
  }

  /** A wrapped step yields the exact digit and the exact borrow, because q is at most 65535. */
  lemma SubtractStepExact(x: Digit, y: Digit, q: Digit, t: Digit)
    ensures var (d, t') := SubtractStep(x, y, q, t); t' * 65536 == d - (x - y * q - t)
  {
    MulMono(y, 65535, q);
    MulMono(0, y, q);
    WrappedBorrow(x - y * q - t);
  }

  lemma WrappedBorrow(e: int)
    requires -65535 * 65536 <= e < 65536
    ensures var w := Wrap32(e); (65536 - HighHalf(w)) % 65536 * 65536 == LowHalf(w) - e
  {
    if e < 0 {
      assert Wrap32(e) == e + 0x1_0000_0000;
    }
  }

  lemma SubtractAlgebra(a: int, x: int, y: int, q: int, t: int, t': int, k: int, aLow: int, xLow: int, yLow: int)
    requires t' * 65536 == a - (x - y * q - t) && aLow == xLow - q * yLow + t * k
    ensures a * k + aLow == x * k + xLow - q * (y * k + yLow) + t' * (65536 * k)
  {
    assert t' * (65536 * k) == (t' * 65536) * k;
    assert (a - x + y * q + t) * k == a * k - x * k + (y * q) * k + t * k;
    assert q * (y * k + yLow) == (y * q) * k + q * yLow;
  }

  /** The digit loop computes the exact difference, owing the borrow at the next position. */
  lemma {:induction false} SubtractDigitsExact(us: seq<Digit>, vs: seq<Digit>, q: Digit)
    requires |us| == |vs|
    ensures var (r, t) := SubtractDigits(us, vs, q);
            Val(r) == Val(us) - q * Val(vs) + t * Pow(|us|)
  {
    if us != [] {
      var (rest, t) := SubtractDigits(us[1..], vs[1..], q);
      var (r, t') := SubtractDigits(us, vs, q);
      SubtractDigitsExact(us[1..], vs[1..], q);
      SubtractStepExact(us[0], vs[0], q, t);
      ValHead(us);
      ValHead(vs);
      ValHead(r);
      SubtractAlgebra(r[0], us[0], vs[0], q, t, t', Pow(|us| - 1), Val(rest), Val(us[1..]), Val(vs[1..]));
    }
  }

  lemma SubtractTopAlgebra(a: int, x: int, t: int, borrow: bool, k: int, aLow: int, xLow: int, qv: int)
    requires a == x - t + (if borrow then 65536 else 0) && aLow == xLow - qv + t * k
    ensures a * k + aLow == x * k + xLow - qv + (if borrow then 65536 * k else 0)
  {
    if borrow {
      assert a * k == x * k - t * k + 65536 * k;
    } else {
      assert a * k == x * k - t * k;
    }
  }

  lemma BorrowOut(x: Digit, t: Digit)
    ensures var f := Wrap32(x - t); LowHalf(f) == x - t + (if HighHalf(f) != 0 then 65536 else 0)
  {}

  lemma SubtractWithTop(us: seq<Digit>, rs: seq<Digit>, vs: seq<Digit>, q: Digit, t: Digit, borrow: bool)
    requires |us| == |rs| == |vs| + 1
    requires (rs[1..], t) == SubtractDigits(us[1..], vs, q)
    requires rs[0] == us[0] - t + (if borrow then 65536 else 0)
    ensures Val(rs) == Val(us) - q * Val(vs) + (if borrow then Pow(|us|) else 0)
  {
    SubtractDigitsExact(us[1..], vs, q);
    ValHead(rs);
    ValHead(us);
    SubtractTopAlgebra(rs[0], us[0], t, borrow, Pow(|vs|), Val(rs[1..]), Val(us[1..]), q * Val(vs));
  }

  method SubtractLoop(u: array<Digit>, p: nat, v: array<Digit>, w: nat, n: nat, qhat: Digit)
    returns (t: Digit, ghost low: seq<Digit>)
    requires u != v && p + n < u.Length && w + n <= v.Length
    modifies u
    ensures |low| == n && u[..] == Splice(old(u[..]), p + 1, low)
    ensures (low, t) == SubtractDigits(old(u[p + 1..p + n + 1]), v[w..w + n], qhat)
  {
    ghost var u0, us, vs := u[..], u[p + 1..p + n + 1], v[w..w + n];
    t, low := 0, [];
    var i := n;
    while i > 0
      invariant 0 <= i <= n && |low| == n - i
      invariant u[..] == Splice(u0, p + i + 1, low)
      invariant (low, t) == SubtractDigits(us[i..], vs[i..], qhat)
    {
      assert us[i - 1..][1..] == us[i..] && vs[i - 1..][1..] == vs[i..];
      assert u[i + p] == u0[i + p] == us[i - 1] && v[w + i - 1] == vs[i - 1];
      var (d, t') := SubtractStep(u[i + p], v[w + i - 1], qhat, t);
      StoreBefore(u, p + i, d, u0, low);
      t := t';
      low := [d] + low;
      i := i - 1;
    }
    assert vs[0..] == vs && us[0..] == us;
  }

  /** Subtract qhat times the divisor from n+1 digits of the remainder; report a borrow out of the top. */
  method MultiplySubtract(u: array<Digit>, p: nat, v: array<Digit>, w: nat, n: nat, qhat: Digit)
    returns (borrow: bool, ghost rs: seq<Digit>)
    requires u != v && p + n < u.Length && w + n <= v.Length
    modifies u
    ensures |rs| == n + 1 && u[..] == Splice(old(u[..]), p, rs)
    ensures Val(rs) == Val(old(u[p..p + n + 1])) - qhat * Val(v[w..w + n]) + (if borrow then Pow(n + 1) else 0)
  {
    ghost var u0, us, vs := u[..], u[p..p + n + 1], v[w..w + n];
    assert us[1..] == u[p + 1..p + n + 1];
    var t, low := SubtractLoop(u, p, v, w, n, qhat);
    var top: int := u[p];
    var f := Wrap32(top - t);
    BorrowOut(top, t);
    StoreBefore(u, p, LowHalf(f), u0, low);
    borrow := HighHalf(f) != 0;
    rs := [LowHalf(f)] + low;
    SubtractWithTop(us, rs, vs, qhat, t, borrow);
  }

  // ---------------------------------------------------------------- D6: add back

  function AddStep(x: Digit, y: Digit, t: Digit): (Digit, Digit) {
    var wide: int := x;
    var w := Wrap32(wide + y + t);
    (LowHalf(w), HighHalf(w))
  }

  function AddDigits(us: seq<Digit>, vs: seq<Digit>): (r: (seq<Digit>, Digit))
    requires |us| == |vs|
    ensures |r.0| == |us| && r.1 <= 1
  {
    if us == [] then ([], 0)
    else
      var (rest, t) := AddDigits(us[1..], vs[1..]);
      var (d, t') := AddStep(us[0], vs[0], t);
      ([d] + rest, t')
  }

  lemma AddAlgebra(a: int, x: int, y: int, t: int, t': int, k: int, aLow: int, xLow: int, yLow: int)
    requires t' * 65536 + a == x + y + t && aLow + t * k == xLow + yLow
    ensures a * k + aLow + t' * (65536 * k) == x * k + xLow + y * k + yLow
  {
    assert (t' * 65536 + a) * k == t' * (65536 * k) + a * k;
    assert (x + y + t) * k == x * k + y * k + t * k;
  }

  lemma {:induction false} AddDigitsExact(us: seq<Digit>, vs: seq<Digit>)
    requires |us| == |vs|
    ensures var (r, t) := AddDigits(us, vs); Val(r) + t * Pow(|us|) == Val(us) + Val(vs)
  {
    if us != [] {
      var (rest, t) := AddDigits(us[1..], vs[1..]);
      var (r, t') := AddDigits(us, vs);
      var k := Pow(|us| - 1);
      assert r[1..] == rest && r[0] + t' * 65536 == us[0] + vs[0] + t;
      assert Val(rest) + t * k == Val(us[1..]) + Val(vs[1..]) by { AddDigitsExact(us[1..], vs[1..]); }
      assert Val(us) == us[0] * k + Val(us[1..]) by { ValHead(us); }
      assert Val(vs) == vs[0] * k + Val(vs[1..]) by { ValHead(vs); }
      assert Val(r) == r[0] * k + Val(rest) by { ValHead(r); }
      AddAlgebra(r[0], us[0], vs[0], t, t', k, Val(rest), Val(us[1..]), Val(vs[1..]));
    }
  }

  lemma RemainderUnique(x: int, d: int, q: int, r: int)
    requires d > 0 && x == q * d + r && 0 <= r < d
    ensures x / d == q && x % d == r
  {
    var k := x / d;
    assert (k - q) * d == r - x % d;
    if k > q { MulMono(1, k - q, d); }
    if k < q { MulMono(k - q, -1, d); }
  }

  lemma AddWithTop(us: seq<Digit>, rs: seq<Digit>, vs: seq<Digit>, t: Digit, over: nat)
    requires |us| == |rs| == |vs| + 1
    requires (rs[1..], t) == AddDigits(us[1..], vs)
    requires over * 65536 + rs[0] == us[0] + t
    ensures Val(rs) + over * Pow(|us|) == Val(us) + Val(vs)
  {
    AddDigitsExact(us[1..], vs);
    ValHead(rs);
    ValHead(us);
    AddAlgebra(rs[0], us[0], 0, t, over, Pow(|vs|), Val(rs[1..]), Val(us[1..]), Val(vs));
  }

  method AddLoop(u: array<Digit>, p: nat, v: array<Digit>, w: nat, n: nat) returns (t: Digit, ghost low: seq<Digit>)
    requires u != v && p + n < u.Length && w + n <= v.Length
    modifies u
    ensures |low| == n && u[..] == Splice(old(u[..]), p + 1, low)
    ensures (low, t) == AddDigits(old(u[p + 1..p + n + 1]), v[w..w + n])
  {
    ghost var u0, us, vs := u[..], u[p + 1..p + n + 1], v[w..w + n];
    t, low := 0, [];
    var i := n;
    while i > 0
      invariant 0 <= i <= n && |low| == n - i
      invariant u[..] == Splice(u0, p + i + 1, low)
      invariant (low, t) == AddDigits(us[i..], vs[i..])
    {
      assert us[i - 1..][1..] == us[i..] && vs[i - 1..][1..] == vs[i..];
      assert u[i + p] == u0[i + p] == us[i - 1] && v[w + i - 1] == vs[i - 1];
      var (d, t') := AddStep(u[i + p], v[w + i - 1], t);
      StoreBefore(u, p + i, d, u0, low);
      t := t';
      low := [d] + low;
      i := i - 1;
    }
    assert vs[0..] == vs && us[0..] == us;
  }

  /** Add the divisor back into n+1 digits of the remainder; the carry out of the top is dropped. */
  method AddBack(u: array<Digit>, p: nat, v: array<Digit>, w: nat, n: nat)
    returns (ghost rs: seq<Digit>, ghost over: nat)
    requires u != v && p + n < u.Length && w + n <= v.Length
    modifies u
    ensures |rs| == n + 1 && u[..] == Splice(old(u[..]), p, rs)
    ensures Val(rs) + over * Pow(n + 1) == Val(old(u[p..p + n + 1])) + Val(v[w..w + n])
  {
    ghost var u0, us, vs := u[..], u[p..p + n + 1], v[w..w + n];
    assert us[1..] == u[p + 1..p + n + 1];
    var t, low := AddLoop(u, p, v, w, n);
    var top: int := u[p];
    var d := LowHalf(top + t);
    StoreBefore(u, p, d, u0, low);
    rs, over := [d] + low, (top + t) / 65536;
    AddWithTop(us, rs, vs, t, over);
  }

  // ---------------------------------------------------------------- D3-D6: one quotient digit

  lemma ValOfTop(s: seq<Digit>)
    requires 2 <= |s| <= 3
    ensures |s| == 2 ==> Val(s) == Top2(s[0], s[1])
    ensures |s| == 3 ==> Val(s) == Top3(s[0], s[1], s[2])
  {
    if |s| == 2 {
      assert s[..1][..0] == [];
      assert Val(s[..1]) == s[0];
    } else {
      ValOfTop(s[..2]);
    }
  }

  lemma TopDigits(us: seq<Digit>, vs: seq<Digit>)
    requires |us| == |vs| + 1 && |vs| >= 2
    ensures Val(us) == Top3(us[0], us[1], us[2]) * Pow(|vs| - 2) + Val(us[3..])
    ensures Val(vs) == Top2(vs[0], vs[1]) * Pow(|vs| - 2) + Val(vs[2..])
  {
    ValSplit(us, 3);
    ValSplit(vs, 2);
    ValOfTop(us[..3]);
    ValOfTop(vs[..2]);
  }

  lemma TopDigitAlgebra(x: int, y: int, k: int, xLow: int, yLow: int)
    requires 0 <= xLow && 0 <= yLow < k && x * (65536 * k) + xLow < (y * k + yLow) * 65536
    ensures x <= y
  {
    assert (y + 1) * (65536 * k) == (y * k + k) * 65536;
    if x >= y + 1 {
      MulMono(y + 1, x, 65536 * k);
    }
  }

  lemma TopDigitOrdered(us: seq<Digit>, vs: seq<Digit>)
    requires |us| == |vs| + 1 && |vs| >= 1
    requires Val(us) < Val(vs) * 65536
    ensures us[0] <= vs[0]
  {
    ValHead(us);
    ValHead(vs);
    ValBound(vs[1..]);
    TopDigitAlgebra(us[0], vs[0], Pow(|vs| - 1), Val(us[1..]), Val(vs[1..]));
  }

  /** q and r are the quotient and remainder of u by v. */
  ghost predicate DivMod(u: int, v: int, q: int, r: int) {
    0 <= r < v && u == q * v + r
  }

  /** D5: a borrow comes out exactly when qhat is one too large; without one the remainder is exact. */
  lemma BorrowIffTooLarge(u: nat, v: nat, qhat: int, p: nat, val: int, borrow: bool)
    requires 0 < v <= p && 0 <= val < p && u / v in {qhat, qhat - 1}
    requires val == u - qhat * v + (if borrow then p else 0)
    ensures borrow <==> u / v == qhat - 1
    ensures borrow ==> qhat >= 1
    ensures !borrow ==> DivMod(u, v, qhat, val)
  {
    var q, r := u / v, u % v;
    assert u == q * v + r;
    assert (qhat - 1) * v == qhat * v - v;
  }

  /** D6: one add-back restores the exact remainder of qhat - 1. */
  lemma AddBackRepairs(u: nat, v: nat, qhat: int, p: nat, val: int, val': nat, over: nat)
    requires 0 < v <= p && 0 <= val < p && u / v == qhat - 1
    requires val == u - qhat * v + p && val' + over * p == val + v && val' < p
    ensures DivMod(u, v, qhat - 1, val')
  {
    var q, r := u / v, u % v;
    assert u == q * v + r;
    assert (qhat - 1) * v == qhat * v - v;
    assert val' + over * p == r + p;
    if over >= 2 { MulMono(2, over, p); }
  }

  lemma TrialDigitForNumerals(us: seq<Digit>, vs: seq<Digit>, qhat: int)
    requires |us| == |vs| + 1 && |vs| >= 2 && vs[0] >= 1
    requires Val(us) < Val(vs) * 65536
    requires IsTrialDigit(qhat, Top3(us[0], us[1], us[2]), Top2(vs[0], vs[1]))
    ensures Val(vs) > 0 && Val(us) / Val(vs) in {qhat, qhat - 1}
  {
    TopDigits(us, vs);
    ValBound(us[3..]);
    ValBound(vs[2..]);
    TrialDigitOffByAtMostOne(qhat, Top3(us[0], us[1], us[2]), Top2(vs[0], vs[1]),
                             Pow(|vs| - 2), Val(us[3..]), Val(vs[2..]), Val(us), Val(vs));
  }

  /** D6: after a borrow, add the divisor back once. */
  method Repair(u: array<Digit>, p: nat, v: array<Digit>, w: nat, n: nat, ghost qhat: Digit,
                ghost u0: seq<Digit>, ghost us: seq<Digit>, ghost vs: seq<Digit>, ghost before: seq<Digit>)
    returns (ghost rs: seq<Digit>)
    requires u != v && p + n < u.Length && w + n <= v.Length && vs == v[w..w + n] && Val(vs) > 0
    requires |u0| == u.Length && |before| == n + 1 && u[..] == Splice(u0, p, before)
    requires Val(us) / Val(vs) == qhat - 1 && Val(before) == Val(us) - qhat * Val(vs) + Pow(n + 1)
    modifies u
    ensures |rs| == n + 1 && u[..] == Splice(u0, p, rs) && DivMod(Val(us), Val(vs), qhat - 1, Val(rs))
  {
    ghost var over;
    SpliceSlice(u0, p, before);
    rs, over := AddBack(u, p, v, w, n);
    SpliceNest(u0, p, before, 0, rs);
    ValBound(vs);
    ValBound(before);
    ValBound(rs);
    AddBackRepairs(Val(us), Val(vs), qhat, Pow(n + 1), Val(before), Val(rs), over);
  }

  /** D3 to D6: produce the exact quotient digit and leave the exact remainder in place. */
  method QuotientDigit(u: array<Digit>, p: nat, v: array<Digit>, w: nat, n: nat,
                       ghost us: seq<Digit>, ghost vs: seq<Digit>)
    returns (q: Digit, ghost rs: seq<Digit>)
    requires u != v && p + n < u.Length && w + n <= v.Length && n >= 2 && v[w] >= 32768
    requires us == u[p..p + n + 1] && vs == v[w..w + n] && Val(us) < Val(vs) * 65536
    modifies u
    ensures |rs| == n + 1 && u[..] == Splice(old(u[..]), p, rs)
    ensures DivMod(Val(us), Val(vs), q, Val(rs))
  {
    ghost var u0 := u[..];
    TopDigitOrdered(us, vs);
    var qhat := TrialQuotient(u[p], u[p + 1], u[p + 2], v[w], v[w + 1]);
    TrialDigitForNumerals(us, vs, qhat);
    var borrow;
    borrow, rs := MultiplySubtract(u, p, v, w, n, qhat);
    SpliceSlice(u0, p, rs);
    ValBound(rs);
    ValBound(vs);
    BorrowIffTooLarge(Val(us), Val(vs), qhat, Pow(n + 1), Val(rs), borrow);
    q := qhat;
    if borrow {
      rs := Repair(u, p, v, w, n, qhat, u0, us, vs, rs);
      q := qhat - 1;
    }
  }

  // ---------------------------------------------------------------- D2, D7: the loop over j

  /** Long division so far: the first n+j digits of `us` divided by v give `qs`, remainder at the front of `left`. */
  ghost predicate Progress(us: seq<Digit>, v: nat, n: nat, j: nat, left: seq<Digit>, qs: seq<Digit>) {
    && |left| == |us| && |qs| == j && n + j <= |us|
    && AllZero(left[..j]) && left[n + j..] == us[n + j..]
    && DivMod(Val(us[..n + j]), v, Val(qs), Val(left[..n + j]))
  }

  /** The n+1 digits the next step works on: the remainder with one more dividend digit. */
  lemma NextTop(us: seq<Digit>, v: nat, n: nat, j: nat, left: seq<Digit>, qs: seq<Digit>)
    requires Progress(us, v, n, j, left, qs) && n + j < |us|
    ensures Val(left[j..j + n + 1]) == Val(left[..n + j]) * 65536 + us[n + j]
    ensures Val(left[j..j + n + 1]) < v * 65536
  {
    var t := left[..n + j + 1];
    assert t[..j] == left[..j] && t[j..] == left[j..j + n + 1];
    ValLeadingZeros(t, j);
    assert t[..n + j] == left[..n + j] && t[n + j] == left[n + j..][0] == us[n + j];
  }

  lemma LongDivisionAlgebra(u: int, v: int, qs: int, r: int, d: int, q: int, r': int)
    requires u == qs * v + r && r * 65536 + d == q * v + r'
    ensures u * 65536 + d == (qs * 65536 + q) * v + r'
  {
    assert (qs * 65536 + q) * v == (qs * v) * 65536 + q * v;
  }

  lemma NextDivMod(us: seq<Digit>, v: nat, n: nat, j: nat, left: seq<Digit>, qs: seq<Digit>, r': nat, q: Digit)
    requires Progress(us, v, n, j, left, qs) && n + j < |us|
    requires DivMod(Val(left[j..j + n + 1]), v, q, r')
    ensures DivMod(Val(us[..n + j + 1]), v, Val(qs + [q]), r')
  {
    NextTop(us, v, n, j, left, qs);
    assert us[..n + j + 1][..n + j] == us[..n + j] && (qs + [q])[..j] == qs;
    LongDivisionAlgebra(Val(us[..n + j]), v, Val(qs), Val(left[..n + j]), us[n + j], q, r');
  }

  lemma ProgressStep(us: seq<Digit>, v: nat, n: nat, j: nat, left: seq<Digit>, qs: seq<Digit>,
                     rs: seq<Digit>, q: Digit)
    requires Progress(us, v, n, j, left, qs) && n + j < |us| && |rs| == n + 1 && v < Pow(n)
    requires DivMod(Val(left[j..j + n + 1]), v, q, Val(rs))
    ensures Progress(us, v, n, j + 1, Splice(left, j, rs), qs + [q])
  {
    var left' := Splice(left, j, rs);
    StepClearsTop(left, j, n, rs);
    NextDivMod(us, v, n, j, left, qs, Val(rs), q);
    assert left'[n + j + 1..] == left[n + j..][1..] && us[n + j + 1..] == us[n + j..][1..];
    assert n + j + 1 == n + (j + 1);
  }

  lemma StepClearsTop(left: seq<Digit>, j: nat, n: nat, rs: seq<Digit>)
    requires j + n < |left| && |rs| == n + 1 && Val(rs) < Pow(n) && AllZero(left[..j])
    ensures var left' := Splice(left, j, rs);
            AllZero(left'[..j + 1]) && Val(left'[..n + j + 1]) == Val(rs)
  {
    var left' := Splice(left, j, rs);
    SmallMeansLeadingZeros(rs, 1);
    assert rs[..1][0] == left'[j];
    assert left'[..j + 1] == left[..j] + [left'[j]];
    var t := left'[..n + j + 1];
    assert t[..j] == left[..j] && t[j..] == rs;
    ValLeadingZeros(t, j);
  }

  /** Step j of Algorithm D, on the digits of a longer buffer. */
  method DivideAt(u: array<Digit>, a: nat, v: array<Digit>, w: nat, n: nat, j: nat, ghost u1: seq<Digit>,
                  ghost us: seq<Digit>, ghost vs: seq<Digit>, ghost left: seq<Digit>, ghost qs: seq<Digit>)
    returns (d: Digit, ghost left': seq<Digit>)
    requires u != v && a + |us| <= u.Length && w + n <= v.Length && n >= 2 && v[w] >= 32768 && vs == v[w..w + n]
    requires Progress(us, Val(vs), n, j, left, qs) && n + j < |us|
    requires |u1| == u.Length && u[..] == Splice(u1, a, left)
    modifies u
    ensures Progress(us, Val(vs), n, j + 1, left', qs + [d]) && u[..] == Splice(u1, a, left')
  {
    ghost var ub, top := u[..], left[j..j + n + 1];
    NextTop(us, Val(vs), n, j, left, qs);
    SpliceNest(u1, a, left, j, top);
    assert u[a + j..a + j + n + 1] == ub[a + j..a + j + n + 1] == top;
    ghost var rs;
    d, rs := QuotientDigit(u, a + j, v, w, n, top, vs);
    assert u[..] == Splice(ub, a + j, rs);
    SpliceNest(u1, a, left, j, rs);
    ValBound(vs);
    ProgressStep(us, Val(vs), n, j, left, qs, rs, d);
    left' := Splice(left, j, rs);
  }

  /** Algorithm D on a normalised divisor, for any numbers of digits. */
  method DivideNormalised(u: array<Digit>, a: nat, v: array<Digit>, w: nat, q: array<Digit>, b: nat, m: nat, n: nat,
                          ghost us: seq<Digit>, ghost vs: seq<Digit>)
    returns (ghost left: seq<Digit>, ghost qs: seq<Digit>)
    requires u != v && u != q && v != q && n >= 2
    requires a + m + n < u.Length && w + n <= v.Length && b + m < q.Length && v[w] >= 32768
    requires us == u[a..a + m + n + 1] && vs == v[w..w + n] && Val(us[..n]) < Val(vs)
    modifies u, q
    ensures |left| == m + n + 1 && u[..] == Splice(old(u[..]), a, left)
    ensures |qs| == m + 1 && q[..] == Splice(old(q[..]), b, qs)
    ensures DivMod(Val(us), Val(vs), Val(qs), Val(left))
  {
    ghost var u1, q1 := u[..], q[..];
    left, qs := us, [];
    SpliceSlice(u1, a, left);
    var j := 0;
    while j <= m
      invariant 0 <= j <= m + 1
      invariant Progress(us, Val(vs), n, j, left, qs)
      invariant u[..] == Splice(u1, a, left)
      invariant q[..] == Splice(q1, b, qs)
      invariant v[w..w + n] == vs && v[w] >= 32768
    {
      var d, left' := DivideAt(u, a, v, w, n, j, u1, us, vs, left, qs);
      StoreAfter(q, b + j, d, b, q1, qs);
      left, qs, j := left', qs + [d], j + 1;
    }
    assert us[..n + j] == us && left[..n + j] == left;
  }

  // ---------------------------------------------------------------- D1, D8: shifting left and back

  /** `s` and `c` are complementary powers of two: shifting up by s and down by c moves bits between digits. */
  ghost predicate Complementary(s: nat, c: nat) {
    s >= 1 && c >= 1 && s * c == 65536
  }

  /** The low half of `x << sh`. */
  lemma ShiftedDigit(x: Digit, s: nat, c: nat)
    requires Complementary(s, c)
    ensures (x * s) % 65536 == (x % c) * s
    ensures 0 <= x / c < s && 0 <= (x % c) * s <= 65536 - s
  {
    var k, r := x / c, x % c;
    assert x == k * c + r;
    assert x * s == k * (s * c) + r * s;
    MulMono(r, c - 1, s);
    assert (c - 1) * s == 65536 - s;
    RemainderUnique(x * s, 65536, k, r * s);
    if k >= s { MulMono(s, k, c); }
    if k < 0 { MulMono(k, -1, c); }
  }

  lemma ShiftFactors(sh: nat)
    requires sh <= 16
    ensures Complementary(Pow2(sh), Pow2(16 - sh))
  {
    Pow2Add(sh, 16 - sh);
    Pow2Of16();
  }

  lemma MixIsDigit(x: Digit, y: Digit, sh: nat)
    requires sh <= 16
    ensures 0 <= (x % Pow2(16 - sh)) * Pow2(sh) + y / Pow2(16 - sh) < 65536
  {
    ShiftFactors(sh);
    ShiftedDigit(x, Pow2(sh), Pow2(16 - sh));
    ShiftedDigit(y, Pow2(sh), Pow2(16 - sh));
  }

  /** The low bits of x moved up by sh, joined with the sh high bits of y moved down. */
  function Mix(x: Digit, y: Digit, sh: nat): Digit
    requires sh <= 16
  {
    MixIsDigit(x, y, sh);
    (x % Pow2(16 - sh)) * Pow2(sh) + y / Pow2(16 - sh)
  }

  ghost function ShiftedLeft(xs: seq<Digit>, sh: nat): (ys: seq<Digit>)
    requires sh <= 16
    ensures |ys| == |xs|
  {
    if xs == [] then []
    else [Mix(xs[0], if |xs| > 1 then xs[1] else 0, sh)] + ShiftedLeft(xs[1..], sh)
  }

  /** `z` is the digit to the left of `xs`. */
  ghost function ShiftedRight(xs: seq<Digit>, z: Digit, sh: nat): (ys: seq<Digit>)
    requires sh <= 16
    ensures |ys| == |xs|
  {
    if xs == [] then []
    else [Mix(z, xs[0], 16 - sh)] + ShiftedRight(xs[1..], xs[0], sh)
  }

  lemma ShiftLeftAlgebra(x: int, s: nat, c: nat, y: int, z: int, k: nat, xLow: int, yLow: int)
    requires Complementary(s, c) && y == (x % c) * s + z && yLow + z * k == xLow * s
    ensures y * k + yLow + (x / c) * (65536 * k) == (x * k + xLow) * s
  {
    var h, r := x / c, x % c;
    assert x * s == h * 65536 + r * s by {
      assert x == h * c + r;
      assert (h * c) * s == h * (s * c);
    }
    assert (x * s) * k == (h * 65536) * k + (r * s) * k;
    assert (r * s + z) * k == (r * s) * k + z * k;
  }

  /** Shifting left multiplies, but for the bits that fall out at the top. */
  lemma {:induction false} ShiftLeftValue(xs: seq<Digit>, ys: seq<Digit>, sh: nat)
    requires sh <= 16 && |xs| >= 1 && ys == ShiftedLeft(xs, sh)
    ensures Val(ys) + (xs[0] / Pow2(16 - sh)) * Pow(|xs|) == Val(xs) * Pow2(sh)
  {
    var s, c := Pow2(sh), Pow2(16 - sh);
    ShiftFactors(sh);
    ValHead(xs);
    ValHead(ys);
    if |xs| == 1 {
      assert 0 / c == 0;
      ShiftLeftAlgebra(xs[0], s, c, ys[0], 0, 1, 0, 0);
    } else {
      assert ys[1..] == ShiftedLeft(xs[1..], sh);
      ShiftLeftValue(xs[1..], ys[1..], sh);
      ShiftLeftAlgebra(xs[0], s, c, ys[0], xs[1] / c, Pow(|xs| - 1), Val(xs[1..]), Val(ys[1..]));
    }
  }

  /** `LHALF(x << sh) | (y >> (16 - sh))`; the two parts occupy disjoint bits. */
  method MixDigit(x: Digit, y: Digit, sh: nat) returns (d: Digit)
    requires sh <= 16
    ensures d == Mix(x, y, sh)
  {
    ShiftFactors(sh);
    ShiftedDigit(x, Pow2(sh), Pow2(16 - sh));
    ShiftedDigit(y, Pow2(sh), Pow2(16 - sh));
    var wide: int := x * Pow2(sh);
    d := wide % 65536 + y / Pow2(16 - sh);
  }

  lemma {:induction false} ShiftedLeftAt(xs: seq<Digit>, sh: nat, k: nat)
    requires sh <= 16 && k < |xs|
    ensures ShiftedLeft(xs, sh)[k] == Mix(xs[k], if k + 1 < |xs| then xs[k + 1] else 0, sh)
  {
    if k > 0 { ShiftedLeftAt(xs[1..], sh, k - 1); }
  }

  /** Store digit `i` of the shifted digits `target`; `y` is the digit behind it. */
  method ShiftStep(p: array<Digit>, o: nat, i: nat, y: Digit, sh: nat,
                   ghost p0: seq<Digit>, ghost xs: seq<Digit>, ghost target: seq<Digit>)
    requires sh <= 16 && i < |xs| && o + |xs| <= |p0| == p.Length && xs == p0[o..o + |xs|]
    requires target == ShiftedLeft(xs, sh) && p[..] == Splice(p0, o, target[..i])
    requires y == if i + 1 < |xs| then xs[i + 1] else 0
    modifies p
    ensures p[..] == Splice(p0, o, target[..i + 1])
  {
    ShiftedLeftAt(xs, sh, i);
    assert p[o + i] == p[..][o + i] == xs[i];
    var d := MixDigit(p[o + i], y, sh);
    StoreAfter(p, o + i, d, o, p0, target[..i]);
    assert target[..i + 1] == target[..i] + [d];
  }

  lemma TakeAll(xs: seq<Digit>)
    ensures xs[..|xs|] == xs && xs[..0] == [] && xs[|xs|..] == [] && xs[0..] == xs
  {
  }

  /** `shl`: shift p[o..o+len] left by sh bits in place. */
  method ShiftLeft(p: array<Digit>, o: nat, len: nat, sh: nat) returns (ghost ys: seq<Digit>)
    requires o + len < p.Length && sh <= 16
    modifies p
    ensures |ys| == len + 1 && p[..] == Splice(old(p[..]), o, ys)
    ensures ys == ShiftedLeft(old(p[o..o + len + 1]), sh)
  {
    ghost var p0 := p[..];
    ghost var xs := p0[o..o + len + 1];
    assert xs == p[o..o + len + 1];
    ys := ShiftedLeft(xs, sh);
    TakeAll(ys);
    var i := 0;
    while i < len
      invariant 0 <= i <= len && p[..] == Splice(p0, o, ys[..i])
    {
      assert p[o + i + 1] == p[..][o + i + 1] == p0[o + i + 1];
      ShiftStep(p, o, i, p[o + i + 1], sh, p0, xs, ys);
      i := i + 1;
    }
    ShiftStep(p, o, i, 0, sh, p0, xs, ys);
  }

  lemma ShiftRightAlgebra(x: int, z: int, s: nat, c: nat, y: int, k: nat, xLow: int, yLow: int, r: int)
    requires Complementary(s, c) && y == (z % s) * c + x / s && s * yLow + r == xLow + (x % s) * k
    ensures s * (y * k + yLow) + r == x * k + xLow + (z % s) * (65536 * k)
  {
    var h, l, m := x / s, x % s, z % s;
    assert s * y == x - l + m * 65536 by {
      assert x == h * s + l;
      assert s * (h + m * c) == h * s + m * (s * c);
    }
    assert (s * y) * k == x * k - l * k + (m * 65536) * k;
    assert s * (y * k + yLow) == (s * y) * k + s * yLow;
  }

  /** Shifting right divides, the last digit's low bits being lost. */
  lemma {:induction false} ShiftRightValue(xs: seq<Digit>, ys: seq<Digit>, z: Digit, sh: nat)
    requires sh <= 16 && |xs| >= 1 && ys == ShiftedRight(xs, z, sh)
    ensures Pow2(sh) * Val(ys) + xs[|xs| - 1] % Pow2(sh) == Val(xs) + (z % Pow2(sh)) * Pow(|xs|)
  {
    var s, c := Pow2(sh), Pow2(16 - sh);
    ShiftFactors(sh);
    ValHead(xs);
    ValHead(ys);
    if |xs| == 1 {
      ShiftRightAlgebra(xs[0], z, s, c, ys[0], 1, 0, 0, xs[0] % s);
    } else {
      assert ys[1..] == ShiftedRight(xs[1..], xs[0], sh);
      ShiftRightValue(xs[1..], ys[1..], xs[0], sh);
      ShiftRightAlgebra(xs[0], z, s, c, ys[0], Pow(|xs| - 1), Val(xs[1..]), Val(ys[1..]), xs[|xs| - 1] % s);
    }
  }

  lemma {:induction false} ShiftedRightAt(xs: seq<Digit>, z: Digit, sh: nat, k: nat)
    requires sh <= 16 && k < |xs|
    ensures ShiftedRight(xs, z, sh)[k] == Mix(if k == 0 then z else xs[k - 1], xs[k], 16 - sh)
    decreases k
  {
    if k > 0 { ShiftedRightAt(xs[1..], xs[0], sh, k - 1); }
  }

  /** One digit of the remainder loop: store digit `i` of `target` in front of those behind it. */
  method ShiftBackStep(u: array<Digit>, o: nat, i: nat, sh: nat,
                       ghost u0: seq<Digit>, ghost xs: seq<Digit>, ghost target: seq<Digit>)
    requires sh <= 16 && i < |xs| && o + |xs| < |u0| == u.Length && xs == u0[o + 1..o + 1 + |xs|]
    requires target == ShiftedRight(xs, u0[o], sh) && u[..] == Splice(u0, o + i + 2, target[i + 1..])
    modifies u
    ensures u[..] == Splice(u0, o + i + 1, target[i..])
  {
    ShiftedRightAt(xs, u0[o], sh, i);
    assert u[o + i + 1] == u[..][o + i + 1] && u[o + i] == u[..][o + i];
    var e := MixDigit(u[o + i], u[o + i + 1], 16 - sh);
    StoreBefore(u, o + i + 1, e, u0, target[i + 1..]);
    assert target[i..] == [e] + target[i + 1..];
  }

  /** The remainder loop: shift u[o+1..o+len] right by sh bits in place, feeding in bits of u[o]. */
  method ShiftRight(u: array<Digit>, o: nat, len: nat, sh: nat) returns (ghost ys: seq<Digit>)
    requires o + len < u.Length && sh <= 16
    modifies u
    ensures |ys| == len && u[..] == Splice(old(u[..]), o + 1, ys)
    ensures ys == ShiftedRight(old(u[o + 1..o + len + 1]), old(u[o]), sh)
  {
    ghost var u0 := u[..];
    ghost var xs := u0[o + 1..o + len + 1];
    assert xs == u[o + 1..o + len + 1];
    ys := ShiftedRight(xs, u0[o], sh);
    TakeAll(ys);
    var i := len;
    while i > 0
      invariant 0 <= i <= len && u[..] == Splice(u0, o + 1 + i, ys[i..])
    {
      i := i - 1;
      ShiftBackStep(u, o, i, sh, u0, xs, ys);
    }
  }

  // ---------------------------------------------------------------- __qdivrem

  /** A 64-bit word read back from the last four of five digits, the first being zero. */
  lemma FiveDigits(s: seq<Digit>)
    requires |s| == 5 && s[0] == 0
    ensures Val(s) == Combine(s[1], s[2]) * 0x1_0000_0000 + Combine(s[3], s[4])
  {
    ValLeadingZeros(s, 1);
    assert s[1..] == [s[1], s[2], s[3], s[4]];
    ValOfFour(s[1], s[2], s[3], s[4]);
  }

  lemma {:induction false} Pow2Mono(i: nat, j: nat)
    requires i <= j
    ensures Pow2(i) <= Pow2(j)
  {
    if i < j { Pow2Mono(i, j - 1); }
  }

  lemma DoubleProduct(x: int, p: int)
    ensures x * (2 * p) == 2 * (x * p)
  {}

  lemma DoubleShift(v1: Digit, d: nat, t: Word)
    requires v1 >= 1 && t == v1 * Pow2(d) && t < 32768
    ensures d <= 14 && 2 * t == v1 * Pow2(d + 1)
  {
    assert Pow2(d) <= t by { MulMono(1, v1, Pow2(d)); }
    if d >= 15 {
      assert Pow2(16) == 2 * Pow2(15);
      Pow2Of16();
      Pow2Mono(15, d);
    }
    DoubleProduct(v1, Pow2(d));
  }

  /** D1: how far to shift so that the leading divisor digit is at least 2^15. */
  method NormalisingShift(v1: Digit) returns (d: nat)
    requires v1 >= 1
    ensures d <= 15 && 32768 <= v1 * Pow2(d) < 65536
  {
    var t: Word := v1;
    d := 0;
    while t < 32768
      invariant t == v1 * Pow2(d) && 1 <= t < 65536 && d <= 15
      decreases 65536 - t
    {
      DoubleShift(v1, d, t);
      t := t * 2;
      d := d + 1;
    }
  }

  lemma RoomAtTop(x: Digit, s: nat, c: nat)
    requires Complementary(s, c) && x * s < 65536
    ensures x / c == 0
  {
    if x >= c { MulMono(c, x, s); }
    RemainderUnique(x, c, 0, x);
  }

  /** Normalising multiplies a numeral whose leading digit has room. */
  lemma NormalisedValue(xs: seq<Digit>, ys: seq<Digit>, d: nat)
    requires d <= 16 && |xs| >= 1 && ys == ShiftedLeft(xs, d) && xs[0] * Pow2(d) < 65536
    ensures Val(ys) == Val(xs) * Pow2(d)
  {
    assert xs[0] / Pow2(16 - d) == 0 by {
      ShiftFactors(d);
      RoomAtTop(xs[0], Pow2(d), Pow2(16 - d));
    }
    ShiftLeftValue(xs, ys, d);
    ZeroProduct(xs[0] / Pow2(16 - d), Pow(|xs|));
  }

  lemma ZeroProduct(x: int, p: int)
    requires x == 0
    ensures x * p == 0
  {}

  /** The first n digits of the dividend are below the divisor. */
  lemma TopBelowDivisor(us: seq<Digit>, n: nat, v: nat)
    requires n <= |us| && Val(us) < v * Pow(|us| - n)
    ensures Val(us[..n]) < v
  {
    ValSplit(us, n);
    if Val(us[..n]) >= v { MulMono(v, Val(us[..n]), Pow(|us| - n)); }
  }

  /** A dividend with a leading zero is below the divisor times the missing positions. */
  lemma DividendBound(us: seq<Digit>, vs: seq<Digit>)
    requires |vs| >= 1 && |us| >= |vs| && us[0] == 0 && vs[0] >= 1
    ensures Val(us) < Val(vs) * Pow(|us| - |vs|)
  {
    var p, k := Pow(|vs| - 1), Pow(|us| - |vs|);
    assert Val(us) < Pow(|us| - 1) by {
      ValLeadingZeros(us, 1);
      ValBound(us[1..]);
    }
    assert Pow(|us| - 1) == p * k by { PowAdd(|vs| - 1, |us| - |vs|); }
    assert p <= Val(vs) by {
      ValHead(vs);
      MulMono(1, vs[0], p);
    }
    MulMono(p, Val(vs), k);
  }

  /** Undoing the normalisation: the scaled remainder is the remainder, scaled. */
  lemma Unscale(u: nat, v: nat, s: nat, q: nat, r: nat) returns (rem: nat)
    requires s >= 1 && DivMod(u * s, v * s, q, r)
    ensures r == rem * s && DivMod(u, v, q, rem)
  {
    var x := u - q * v;
    assert q * (v * s) == (q * v) * s;
    assert x * s == u * s - (q * v) * s;
    if x < 0 { MulMono(x, -1, s); }
    if x >= v { MulMono(v, x, s); }
    rem := x;
  }

  lemma ExactMultiple(s: nat, y: int, l: int, rem: int)
    requires 0 <= l < s && s * y + l == rem * s
    ensures y == rem
  {
    RemainderUnique(rem * s, s, rem, 0);
    RemainderUnique(rem * s, s, y, l);
  }

  lemma UnshiftedValue(xs: seq<Digit>, ys: seq<Digit>, d: nat, rem: int)
    requires d <= 16 && |xs| >= 1 && ys == ShiftedRight(xs, 0, d) && Val(xs) == rem * Pow2(d)
    ensures Val(ys) == rem
  {
    ShiftRightValue(xs, ys, 0, d);
    ExactMultiple(Pow2(d), Val(ys), xs[|xs| - 1] % Pow2(d), rem);
  }

  /** After normalising, the leading digit has its top bit set. */
  lemma LeadingDigit(x: Digit, y: Digit, d: nat)
    requires d <= 16 && 32768 <= x * Pow2(d) < 65536
    ensures Mix(x, y, d) >= 32768
  {
    var s, c := Pow2(d), Pow2(16 - d);
    assert x % c == x && y / c >= 0 by {
      ShiftFactors(d);
      RoomAtTop(x, s, c);
      ShiftedDigit(y, s, c);
    }
  }

  /** D1: shift dividend and divisor. */
  method Normalise(u: array<Digit>, a: nat, v: array<Digit>, w: nat, k: nat, n: nat, d: nat,
                   ghost us: seq<Digit>, ghost vs: seq<Digit>)
    returns (ghost us': seq<Digit>, ghost vs': seq<Digit>)
    requires u != v && a + k < u.Length && w + n <= v.Length && 1 <= n <= k && d <= 15
    requires us == u[a..a + k + 1] && vs == v[w..w + n] && us[0] == 0 && 32768 <= vs[0] * Pow2(d) < 65536
    modifies u, v
    ensures |us'| == k + 1 && u[..] == Splice(old(u[..]), a, us') && Val(us') == Val(us) * Pow2(d)
    ensures |vs'| == n && v[..] == Splice(old(v[..]), w, vs') && Val(vs') == Val(vs) * Pow2(d)
    ensures v[w] >= 32768
  {
    if d > 0 {
      us' := ShiftLeft(u, a, k, d);
      assert v[w..w + n] == vs;
      vs' := ShiftLeft(v, w, n - 1, d);
      ZeroProduct(us[0], Pow2(d));
      NormalisedValue(us, us', d);
      NormalisedValue(vs, vs', d);
      LeadingDigit(vs[0], if n > 1 then vs[1] else 0, d);
      assert v[w] == vs'[0];
    } else {
      us', vs' := us, vs;
      SpliceSlice(u[..], a, us);
      SpliceSlice(v[..], w, vs);
    }
  }

  /** D8: shift the remainder, held in the last n digits, back; the buffer then denotes the true remainder. */
  method Unnormalise(u: array<Digit>, o: nat, n: nat, d: nat, ghost xs: seq<Digit>, ghost rem: nat)
    requires o + 1 + n == u.Length && xs == u[o + 1..] && d <= 15 && n >= 1
    requires AllZero(u[..o + 1]) && Val(xs) == rem * Pow2(d)
    modifies u
    ensures Val(u[..]) == rem && AllZero(u[..o + 1])
  {
    assert u[o] == u[..o + 1][o] == 0;
    ghost var ys := xs;
    if d > 0 {
      assert u[o + 1..o + n + 1] == xs;
      ys := ShiftRight(u, o, n, d);
      UnshiftedValue(xs, ys, d, rem);
      u[o] := 0;
    }
    ghost var r := u[..];
    assert r[o + 1..] == ys;
    assert AllZero(r[..o + 1]);
    ValLeadingZeros(r, o + 1);
  }

  /** Where the remainder sits after the loop: only in the last n digits of the buffer. */
  lemma RemainderAtEnd(u0: seq<Digit>, a: nat, left: seq<Digit>, n: nat)
    requires a + |left| == |u0| && n < |left| && AllZero(u0[..a]) && Val(left) < Pow(n)
    ensures var u, o := Splice(u0, a, left), |u0| - n - 1;
            AllZero(u[..o + 1]) && Val(u[o + 1..]) == Val(left)
  {
    var u, k := Splice(u0, a, left), |left| - n;
    SmallMeansLeadingZeros(left, k);
    ValLeadingZeros(left, k);
    assert u[a + k..] == left[k..];
    forall i | 0 <= i < a + k ensures u[i] == 0 {
      if i < a {
        assert u[i] == u0[..a][i];
      } else {
        assert u[i] == left[..k][i - a];
      }
    }
  }

  method ExtractRemainder(u: array<Digit>, uo: nat, m: nat, n: nat, d: nat,
                          ghost u0: seq<Digit>, ghost left: seq<Digit>, ghost rem: nat)
    requires |u0| == u.Length == uo + m + n + 1 && |left| == m + n + 1 && n >= 1 && d <= 15
    requires u[..] == Splice(u0, uo, left) && AllZero(u0[..uo]) && Val(left) == rem * Pow2(d) && Val(left) < Pow(n)
    modifies u
    ensures Val(u[..]) == rem && u[0] == 0
  {
    RemainderAtEnd(u0, uo, left, n);
    ghost var u1 := u[..];
    assert u[..uo + m + 1] == u1[..uo + m + 1] && u[uo + m + 1..] == u1[uo + m + 1..];
    Unnormalise(u, uo + m, n, d, u1[uo + m + 1..], rem);
    assert u[0] == u[..uo + m + 1][0];
  }

  /** A numeral written after leading zeros. */
  lemma SpliceAfterZeros(q0: seq<Digit>, b: nat, qs: seq<Digit>)
    requires b + |qs| == |q0| && AllZero(q0[..b])
    ensures Val(Splice(q0, b, qs)) == Val(qs) && AllZero(Splice(q0, b, qs)[..b])
  {
    var r := Splice(q0, b, qs);
    assert r[..b] == q0[..b] && r[b..] == qs;
    ValLeadingZeros(r, b);
  }

  lemma ScaledBound(u: nat, v: nat, p: nat, s: nat)
    requires u < v * p && s >= 1
    ensures u * s < (v * s) * p
  {
    MulMono(u + 1, v * p, s);
    assert (v * p) * s == (v * s) * p;
    assert (u + 1) * s == u * s + s;
  }

  lemma NormalisedTopBelowDivisor(us: seq<Digit>, vs: seq<Digit>, us': seq<Digit>, vs': seq<Digit>, s: nat)
    requires |vs| >= 1 && |us| >= |vs| && us[0] == 0 && vs[0] >= 1 && s >= 1
    requires |us'| == |us| && Val(us') == Val(us) * s && Val(vs') == Val(vs) * s
    ensures Val(us'[..|vs|]) < Val(vs')
  {
    DividendBound(us, vs);
    ScaledBound(Val(us), Val(vs), Pow(|us| - |vs|), s);
    TopBelowDivisor(us', |vs|, Val(vs'));
  }

  /** D1 to D7: the digits of the quotient, and the remainder still shifted left by d. */
  method DivideShifted(u: array<Digit>, uo: nat, v: array<Digit>, vo: nat, q: array<Digit>, b: nat, m: nat, n: nat,
                       d: nat, ghost us: seq<Digit>, ghost vs: seq<Digit>)
    returns (ghost left: seq<Digit>, ghost qs: seq<Digit>, ghost rem: nat)
    requires u != v && u != q && v != q && n >= 2 && d <= 15
    requires uo + m + n < u.Length && vo + n <= v.Length && b + m < q.Length
    requires us == u[uo..uo + m + n + 1] && vs == v[vo..vo + n] && us[0] == 0 && 32768 <= vs[0] * Pow2(d) < 65536
    modifies u, v, q
    ensures |left| == m + n + 1 && u[..] == Splice(old(u[..]), uo, left)
    ensures |qs| == m + 1 && q[..] == Splice(old(q[..]), b, qs)
    ensures DivMod(Val(us), Val(vs), Val(qs), rem)
    ensures Val(left) == rem * Pow2(d) && Val(left) < Pow(n)
  {
    ghost var u0 := u[..];
    var us', vs' := Normalise(u, uo, v, vo, m + n, n, d, us, vs);
    assert vs[0] >= 1 by { if vs[0] == 0 { ZeroProduct(vs[0], Pow2(d)); } }
    NormalisedTopBelowDivisor(us, vs, us', vs', Pow2(d));
    SpliceSlice(u0, uo, us');
    assert v[vo..vo + n] == vs' && u[uo..uo + m + n + 1] == us';
    left, qs := DivideNormalised(u, uo, v, vo, q, b, m, n, us', vs');
    rem := Unscale(Val(us), Val(vs), Pow2(d), Val(qs), Val(left));
    SpliceNest(u0, uo, us', 0, left);
    ValBound(vs');
  }

  method ZeroPrefix(k: nat) returns (q: array<Digit>)
    requires k <= 5
    ensures fresh(q) && q.Length == 5 && AllZero(q[..k])
  {
    q := new Digit[5];
    var i := k;
    while i > 0
      invariant 0 <= i <= k
      invariant forall j :: i <= j < k ==> q[j] == 0
    {
      i := i - 1;
      q[i] := 0;
    }
  }

  /** The general case: divisor of n >= 2 digits v[vo+1..], dividend of m+n digits u[uo+1..]. */
  method LongDivide(u: array<Digit>, uo: nat, v: array<Digit>, vo: nat, m: nat, n: nat, wantRem: bool,
                    ghost uu: nat, ghost vv: nat)
    returns (q: array<Digit>, ghost rem: nat)
    requires u != v && u.Length == 5 == v.Length && n >= 2 && uo + m + n == 4 && vo + n == 4
    requires AllZero(u[..uo + 1]) && v[vo + 1] != 0 && Val(u[..]) == uu && Val(v[vo + 1..]) == vv
    modifies u, v
    ensures fresh(q) && q.Length == 5 && q[0] == 0
    ensures DivMod(uu, vv, Val(q[..]), rem)
    ensures wantRem ==> u[0] == 0 && Val(u[..]) == rem
  {
    q := ZeroPrefix(4 - m);
    var d := NormalisingShift(v[vo + 1]);
    ghost var us, vs, u0, q0 := u[uo..], v[vo + 1..], u[..], q[..];
    assert us[0] == u[..uo + 1][uo] == 0;
    assert u0[..uo] == u[..uo + 1][..uo];
    ValLeadingZeros(u0, uo);
    assert us == u[uo..uo + m + n + 1] && vs == v[vo + 1..vo + 1 + n];
    ghost var left, qs;
    left, qs, rem := DivideShifted(u, uo, v, vo + 1, q, 4 - m, m, n, d, us, vs);
    SpliceAfterZeros(q0, 4 - m, qs);
    assert q[0] == q[..][..4 - m][0];
    if wantRem {
      ExtractRemainder(u, uo, m, n, d, u0, left, rem);
    }
  }

  lemma ShortStep(r: int, d: Digit, t: Digit)
    requires 0 <= r < t
    ensures 0 <= (r * 65536 + d) / t < 65536 && 0 <= (r * 65536 + d) % t < t
    ensures r * 65536 + d == (r * 65536 + d) / t * t + (r * 65536 + d) % t
  {
    var x := r * 65536 + d;
    MulMono(r, t - 1, 65536);
    if x / t >= 65536 { MulMono(65536, x / t, t); }
  }

  /** The one-digit divisor case: schoolbook short division, unrolled over the four digits. */
  method ShortDivide(u1: Digit, u2: Digit, u3: Digit, u4: Digit, t: Digit) returns (q: ULong, rem: ULong)
    requires t != 0
    ensures DivMod(Val([u1, u2, u3, u4]), t, q, rem)
  {
    ShortStep(0, u1, t);
    var q1, r1 := u1 / t, u1 % t;
    ShortStep(r1, u2, t);
    var rbj := Combine(r1, u2);
    var q2, r2 := rbj / t, rbj % t;
    ShortStep(r2, u3, t);
    rbj := Combine(r2, u3);
    var q3, r3 := rbj / t, rbj % t;
    ShortStep(r3, u4, t);
    rbj := Combine(r3, u4);
    var q4, r4 := rbj / t, rbj % t;
    q := Combine(q1, q2) * 0x1_0000_0000 + Combine(q3, q4);
    rem := r4;
    ShortDivideAlgebra(u1, u2, u3, u4, t, q1, q2, q3, q4, r1, r2, r3, r4);
    ValOfFour(u1, u2, u3, u4);
    assert DivMod(Val([u1, u2, u3, u4]), t, q, rem);
  }

  lemma ShortDivideAlgebra(u1: int, u2: int, u3: int, u4: int, t: int,
                           q1: int, q2: int, q3: int, q4: int, r1: int, r2: int, r3: int, r4: int)
    requires u1 == q1 * t + r1 && r1 * 65536 + u2 == q2 * t + r2
    requires r2 * 65536 + u3 == q3 * t + r3 && r3 * 65536 + u4 == q4 * t + r4
    ensures (u1 * 65536 + u2) * 0x1_0000_0000 + (u3 * 65536 + u4) ==
            ((q1 * 65536 + q2) * 0x1_0000_0000 + (q3 * 65536 + q4)) * t + r4
  {
    LongDivisionAlgebra(u1, t, q1, r1, u2, q2, r2);
    LongDivisionAlgebra(u1 * 65536 + u2, t, q1 * 65536 + q2, r2, u3, q3, r3);
    LongDivisionAlgebra((u1 * 65536 + u2) * 65536 + u3, t, (q1 * 65536 + q2) * 65536 + q3, r3, u4, q4, r4);
  }

  method SplitDigits(x: ULong) returns (a: array<Digit>)
    ensures fresh(a) && a.Length == 5 && a[0] == 0 && Val(a[..]) == x
  {
    var hi, lo := x / 0x1_0000_0000, x % 0x1_0000_0000;
    a := new Digit[5] [0, HighHalf(hi), LowHalf(hi), HighHalf(lo), LowHalf(lo)];
    FiveDigits(a[..]);
  }

  datatype DivResult = DivideByZero | Divided(quotient: ULong, remainder: Option<ULong>)

  lemma DivModIsQuotient(u: nat, v: nat, q: int, r: int)
    requires DivMod(u, v, q, r)
    ensures v > 0 && q == u / v && r == u % v
  {
    RemainderUnique(u, v, q, r);
  }

  /** The number of leading zero digits leaves a number of that many digits fewer. */
  lemma TooFewDigits(us: seq<Digit>, vs: seq<Digit>)
    requires |us| == |vs| >= 1 && us[0] == 0 && vs[0] != 0
    ensures Val(us) < Val(vs)
  {
    DividendBound(us, vs);
  }

  /** `__qdivrem`: exact quotient, and the exact remainder when the caller asks for it. */
  method QDivRem(ull: ULong, vll: ULong, wantRem: bool) returns (res: DivResult)
    ensures vll == 0 <==> res.DivideByZero?
    ensures vll != 0 ==>
              res == Divided(ull / vll, if wantRem then Some(ull % vll) else None)
  {
    if vll == 0 {
      return DivideByZero;
    }
    if ull < vll {
      DivModIsQuotient(ull, vll, 0, ull);
      return Divided(0, if wantRem then Some(ull) else None);
    }
    var u := SplitDigits(ull);
    var v := SplitDigits(vll);
    ghost var v0 := v[..];
    var n, vo := 4, 0;
    while v[vo + 1] == 0
      invariant vo == 4 - n && 2 <= n <= 4 && v[..] == v0 && AllZero(v0[..vo + 1])
      decreases n
    {
      n := n - 1;
      if n == 1 {
        assert vo == 2 && AllZero(v0[..4]);
        ValLeadingZeros(v0, 4);
        assert v0[4..] == [v[4]] && [v[4]][..0] == [];
        assert u[..][1..] == [u[1], u[2], u[3], u[4]];
        ValLeadingZeros(u[..], 1);
        var q, rem := ShortDivide(u[1], u[2], u[3], u[4], v[vo + 2]);
        DivModIsQuotient(ull, vll, q, rem);
        return Divided(q, if wantRem then Some(rem) else None);
      }
      vo := vo + 1;
    }
    ValLeadingZeros(v0, vo + 1);
    ghost var u0 := u[..];
    var m, uo := 4 - n, 0;
    while u[uo + 1] == 0
      invariant uo + m + n == 4 && 0 <= m && u[..] == u0 && v[..] == v0 && AllZero(u0[..uo + 1])
      decreases m
    {
      if m == 0 {
        ValLeadingZeros(u0, uo + 1);
        TooFewDigits(u0[uo + 1..], v0[vo + 1..]);
        assert false;
      }
      m := m - 1;
      uo := uo + 1;
    }
    assert v[vo + 1..] == v0[vo + 1..];
    var q, rem := LongDivide(u, uo, v, vo, m, n, wantRem, ull, vll);
    DivModIsQuotient(ull, vll, Val(q[..]), rem);
    FiveDigits(q[..]);
    var quotient: ULong := Combine(q[1], q[2]) * 0x1_0000_0000 + Combine(q[3], q[4]);
    if wantRem {
      FiveDigits(u[..]);
      return Divided(quotient, Some(Combine(u[1], u[2]) * 0x1_0000_0000 + Combine(u[3], u[4])));
    }
    return Divided(quotient, None);
  }

  // ---------------------------------------------------------------- signed wrappers

  function Abs(a: int): nat {
    if a < 0 then -a else a
  }

  /** Quotient rounded toward zero, as section 6.5.5 of ISO C99 defines `/`. */
  function TruncDiv(a: int, b: int): int
    requires b != 0
  {
    if (a < 0) == (b < 0) then Abs(a) / Abs(b) else -(Abs(a) / Abs(b))
  }

  function TruncMod(a: int, b: int): int
    requires b != 0
  {
    if a < 0 then -(Abs(a) % Abs(b)) else Abs(a) % Abs(b)
  }

  /** C's law for `/` and `%`: they recombine, and the remainder is smaller than b and signed like a. */
  lemma TruncatingDivision(a: int, b: int)
    requires b != 0
    ensures TruncDiv(a, b) * b + TruncMod(a, b) == a
    ensures Abs(TruncMod(a, b)) < Abs(b) && (TruncMod(a, b) != 0 ==> (TruncMod(a, b) < 0 <==> a < 0))
  {
    var q, r := Abs(a) / Abs(b), Abs(a) % Abs(b);
    assert q * Abs(b) + r == Abs(a);
  }

  /** Unsigned negation. */
  function Negate64(x: ULong): ULong {
    Wrap64(0 - x)
  }

  /** A 64-bit negation recovers the magnitude, also of the most negative number. */
  lemma MagnitudeBits(a: SLong)
    ensures Wrap64(a) == (if a < 0 then a + 0x1_0000_0000_0000_0000 else a)
    ensures a < 0 ==> Negate64(Wrap64(a)) == Abs(a)
    ensures Abs(a) <= 0x8000_0000_0000_0000
  {
    WrapOnce(a);
    if a < 0 { WrapOnce(0 - (a + 0x1_0000_0000_0000_0000)); }
  }

  lemma WrapOnce(x: int)
    requires -0x1_0000_0000_0000_0000 <= x < 0x1_0000_0000_0000_0000
    ensures Wrap64(x) == (if x < 0 then x + 0x1_0000_0000_0000_0000 else x)
  {
    if x < 0 {
      RemainderUnique(x, 0x1_0000_0000_0000_0000, -1, x + 0x1_0000_0000_0000_0000);
    }
  }

  /** The magnitude's bits, negated on demand, read back as the signed value modulo 2^64. */
  lemma SignedBits(x: nat, neg: bool)
    requires x <= 0x8000_0000_0000_0000
    ensures AsSigned(if neg then Negate64(x) else x) == AsSigned(Wrap64(if neg then 0 - x else x))
    ensures x < 0x8000_0000_0000_0000 ==> AsSigned(if neg then Negate64(x) else x) == if neg then 0 - x else x
  {
    WrapOnce(x);
    WrapOnce(0 - x);
  }

  /** `__divdi3`: truncating division modulo 2^64; only the most negative number over -1 wraps. */
  method DivDi3(a: SLong, b: SLong) returns (res: Option<SLong>)
    ensures b == 0 <==> res == None
    ensures b != 0 ==> res == Some(AsSigned(Wrap64(TruncDiv(a, b))))
  {
    var ua, ub, neg := Wrap64(a), Wrap64(b), false;
    MagnitudeBits(a);
    MagnitudeBits(b);
    if a < 0 {
      ua, neg := Negate64(ua), !neg;
    }
    if b < 0 {
      ub, neg := Negate64(ub), !neg;
    }
    var d := QDivRem(ua, ub, false);
    match d
    case DivideByZero =>
      res := None;
    case Divided(quotient, _) =>
      var uq := quotient;
      QuotientBound(ua, ub);
      SignedBits(uq, neg);
      if neg {
        uq := Negate64(uq);
      }
      res := Some(AsSigned(uq));
  }

  /** `__moddi3`: the remainder of truncating division. */
  method ModDi3(a: SLong, b: SLong) returns (res: Option<SLong>)
    ensures b == 0 <==> res == None
    ensures b != 0 ==> res == Some(TruncMod(a, b))
  {
    var ua, ub, neg := Wrap64(a), Wrap64(b), false;
    MagnitudeBits(a);
    MagnitudeBits(b);
    if a < 0 {
      ua, neg := Negate64(ua), !neg;
    }
    if b < 0 {
      ub := Negate64(ub);
    }
    var d := QDivRem(ua, ub, true);
    match d
    case DivideByZero =>
      res := None;
    case Divided(_, remainder) =>
      var ur := remainder.value;
      assert ur < ub;
      SignedBits(ur, neg);
      if neg {
        ur := Negate64(ur);
      }
      res := Some(AsSigned(ur));
  }

  lemma QuotientBound(x: nat, y: nat)
    requires y >= 1
    ensures 0 <= x / y <= x && (y >= 2 ==> 2 * (x / y) <= x)
  {
    var q := x / y;
    assert q * y + x % y == x;
    MulMono(1, y, q);
    if y >= 2 { MulMono(2, y, q); }
  }

  /** Division overflows exactly in one case. */
  lemma OnlyOverflow(a: SLong, b: SLong)
    requires b != 0
    ensures AsSigned(Wrap64(TruncDiv(a, b))) == TruncDiv(a, b)
            <==> !(a == -0x8000_0000_0000_0000 && b == -1)
  {
    QuotientBound(Abs(a), Abs(b));
    if Abs(b) == 1 { RemainderUnique(Abs(a), 1, Abs(a), 0); }
    FitsSigned(TruncDiv(a, b));
  }

  lemma FitsSigned(x: int)
    requires -0x8000_0000_0000_0000 <= x <= 0x8000_0000_0000_0000
    ensures AsSigned(Wrap64(x)) == x <==> x != 0x8000_0000_0000_0000
  {}
}
