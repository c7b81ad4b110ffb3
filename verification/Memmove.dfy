/**
 `memmove` and `memcpy` on one flat memory, word by word when both addresses and
 the length are multiples of the word size and byte by byte otherwise.
 */
module Memmove {

  /** Where the byte that ends up at `k` was. */
  ghost function From(k: nat, dst: nat, src: nat, len: nat): nat {
    if dst <= k < dst + len then src + (k - dst) else k
  }

  /** `now` is `was` with the bytes at `src` moved to `dst` all at once. */
  ghost predicate Moved(now: seq<bv8>, was: seq<bv8>, dst: nat, src: nat, len: nat)
    requires dst + len <= |was| && src + len <= |was|
  {
    && |now| == |was|
    && (forall k :: 0 <= k < |now| ==> now[k] == was[From(k, dst, src, len)])
  }

  /** That is: the destination holds the original source, and everything before and after it is as it was. */
  lemma MovedMeans(now: seq<bv8>, was: seq<bv8>, dst: nat, src: nat, len: nat)
    requires dst + len <= |was| && src + len <= |was|
    ensures Moved(now, was, dst, src, len) <==> now == was[..dst] + was[src..src + len] + was[dst + len..]
  {
    var r := was[..dst] + was[src..src + len] + was[dst + len..];
    assert |r| == |was|;
    forall k | 0 <= k < |was| ensures r[k] == was[From(k, dst, src, len)] {}
    if Moved(now, was, dst, src, len) { assert now == r; }
  }

  /** One more unit at the end of a forward copy whose source is not overwritten yet. */
  lemma ForwardStep(was: seq<bv8>, before: seq<bv8>, now: seq<bv8>, dst: nat, src: nat, n: nat, w: nat)
    requires dst + n + w <= |was| && src + n + w <= |was| && (dst <= src || dst >= src + n + w)
    requires Moved(before, was, dst, src, n) && Moved(now, before, dst + n, src + n, w)
    ensures Moved(now, was, dst, src, n + w)
  {
    forall k | 0 <= k < |was| ensures now[k] == was[From(k, dst, src, n + w)] {
      assert now[k] == before[From(k, dst + n, src + n, w)];
    }
  }

  /** One more unit at the front of a backward copy whose source is not overwritten yet. */
  lemma BackwardStep(was: seq<bv8>, before: seq<bv8>, now: seq<bv8>, dst: nat, src: nat, n: nat, len: nat, w: nat)
    requires w <= n <= len && dst + len <= |was| && src + len <= |was| && src <= dst
    requires Moved(before, was, dst + n, src + n, len - n) && Moved(now, before, dst + (n - w), src + (n - w), w)
    ensures Moved(now, was, dst + (n - w), src + (n - w), len - (n - w))
  {
    forall k | 0 <= k < |was| ensures now[k] == was[From(k, dst + (n - w), src + (n - w), len - (n - w))] {
      assert now[k] == before[From(k, dst + (n - w), src + (n - w), w)];
    }
  }

  /** Load a word, then store it. */
  method CopyWord(m: array<bv8>, dst: nat, src: nat)
    requires dst + 4 <= m.Length && src + 4 <= m.Length
    modifies m
    ensures Moved(m[..], old(m[..]), dst, src, 4)
  {
    var b0, b1, b2, b3 := m[src], m[src + 1], m[src + 2], m[src + 3];
    m[dst], m[dst + 1], m[dst + 2], m[dst + 3] := b0, b1, b2, b3;
  }

  method CopyByte(m: array<bv8>, dst: nat, src: nat)
    requires dst < m.Length && src < m.Length
    modifies m
    ensures Moved(m[..], old(m[..]), dst, src, 1)
  {
    m[dst] := m[src];
  }

  predicate Aligned(dst: nat, src: nat, len: nat) {
    dst % 4 == 0 && src % 4 == 0 && len % 4 == 0
  }

  /** Copy a unit of one word or one byte. */
  method CopyUnit(m: array<bv8>, dst: nat, src: nat, w: nat)
    requires (w == 4 || w == 1) && dst + w <= m.Length && src + w <= m.Length
    modifies m
    ensures Moved(m[..], old(m[..]), dst, src, w)
  {
    if w == 4 { CopyWord(m, dst, src); } else { CopyByte(m, dst, src); }
  }

  /** One unit more of a forward copy that has done `n` bytes. */
  method StepForward(m: array<bv8>, ghost was: seq<bv8>, dst: nat, src: nat, n: nat, w: nat)
    requires (w == 4 || w == 1) && |was| == m.Length
    requires dst + n + w <= |was| && src + n + w <= |was| && (dst <= src || dst >= src + n + w)
    requires Moved(m[..], was, dst, src, n)
    modifies m
    ensures Moved(m[..], was, dst, src, n + w)
  {
    ghost var before := m[..];
    CopyUnit(m, dst + n, src + n, w);
    ForwardStep(was, before, m[..], dst, src, n, w);
  }

  /** One unit more of a backward copy that has come down to offset `n`. */
  method StepBackward(m: array<bv8>, ghost was: seq<bv8>, dst: nat, src: nat, n: nat, ghost len: nat, w: nat)
    requires (w == 4 || w == 1) && w <= n <= len && |was| == m.Length
    requires dst + len <= |was| && src + len <= |was| && src <= dst
    requires Moved(m[..], was, dst + n, src + n, len - n)
    modifies m
    ensures Moved(m[..], was, dst + (n - w), src + (n - w), len - (n - w))
  {
    ghost var before := m[..];
    CopyUnit(m, dst + (n - w), src + (n - w), w);
    BackwardStep(was, before, m[..], dst, src, n, len, w);
  }

  function Bytes(units: nat, w: nat): nat {
    if w == 4 then 4 * units else units
  }

  /** The forward loop, over `count` units of `w` bytes. */
  method CopyForward(m: array<bv8>, dst: nat, src: nat, count: nat, w: nat)
    requires (w == 4 || w == 1) && dst + Bytes(count, w) <= m.Length && src + Bytes(count, w) <= m.Length
    requires dst <= src || dst >= src + Bytes(count, w)
    modifies m
    ensures Moved(m[..], old(m[..]), dst, src, Bytes(count, w))
  {
    var i := 0;
    while i < count
      invariant i <= count && Moved(m[..], old(m[..]), dst, src, Bytes(i, w))
    {
      StepForward(m, old(m[..]), dst, src, Bytes(i, w), w);
      i := i + 1;
    }
  }

  /** The backward loop, over `count` units of `w` bytes. */
  method CopyBackward(m: array<bv8>, dst: nat, src: nat, count: nat, w: nat)
    requires (w == 4 || w == 1) && dst + Bytes(count, w) <= m.Length && src + Bytes(count, w) <= m.Length && src <= dst
    modifies m
    ensures Moved(m[..], old(m[..]), dst, src, Bytes(count, w))
  {
    var i: nat := count;
    while i > 0
      invariant i <= count
      invariant Moved(m[..], old(m[..]), dst + Bytes(i, w), src + Bytes(i, w), Bytes(count, w) - Bytes(i, w))
    {
      StepBackward(m, old(m[..]), dst, src, Bytes(i, w), Bytes(count, w), w);
      i := i - 1;
    }
  }

  /** `memcpy`: always forwards, so right for disjoint regions and for a destination not above the source. */
  method Memcpy(m: array<bv8>, dst: nat, src: nat, len: nat) returns (r: nat)
    requires dst + len <= m.Length && src + len <= m.Length
    requires dst <= src || dst >= src + len
    modifies m
    ensures Moved(m[..], old(m[..]), dst, src, len) && r == dst
  {
    if Aligned(dst, src, len) {
      CopyForward(m, dst, src, len / 4, 4);
    } else {
      CopyForward(m, dst, src, len, 1);
    }
    return dst;
  }

  /** `memmove`: for every overlap and alignment the destination gets the source's original bytes and nothing else changes. */
  method Memmove(m: array<bv8>, dst: nat, src: nat, len: nat) returns (r: nat)
    requires dst + len <= m.Length && src + len <= m.Length
    modifies m
    ensures Moved(m[..], old(m[..]), dst, src, len) && r == dst
  {
    if dst < src {
      r := Memcpy(m, dst, src, len);
    } else if Aligned(dst, src, len) {
      CopyBackward(m, dst, src, len / 4, 4);
      r := dst;
    } else {
      CopyBackward(m, dst, src, len, 1);
      r := dst;
    }
  }
}
