/**
 The fixed-size bit array of `kern/lib/bitmap.c`: a byte array searched a byte
 and then a bit at a time, specified by the set of marked indices.
 */
module Bitmap {

  import opened Options

  /** `1 << k` in a byte. */
  function Mask(k: nat): bv8
    requires k < 8
  {
    if k == 0 then 1 else if k == 1 then 2 else if k == 2 then 4 else if k == 3 then 8
    else if k == 4 then 16 else if k == 5 then 32 else if k == 6 then 64 else 128
  }

  predicate Bit(w: bv8, k: nat)
    requires k < 8
  {
    w & Mask(k) != 0
  }

  lemma SetBit(w: bv8, k: nat, j: nat)
    requires k < 8 && j < 8
    ensures Bit(w | Mask(k), j) <==> j == k || Bit(w, j)
  {}

  lemma ClearBit(w: bv8, k: nat, j: nat)
    requires k < 8 && j < 8
    ensures Bit(w & !Mask(k), j) <==> j != k && Bit(w, j)
  {}

  /** A byte other than 0xff has a clear bit. */
  lemma SomeClearBit(w: bv8)
    ensures w == 0xff <==> forall k :: 0 <= k < 8 ==> Bit(w, k)
  {
    if forall k :: 0 <= k < 8 ==> Bit(w, k) {
      assert Bit(w, 0) && Bit(w, 1) && Bit(w, 2) && Bit(w, 3) && Bit(w, 4) && Bit(w, 5) && Bit(w, 6) && Bit(w, 7);
    }
  }

  class Bitmap {
    const nbits: nat
    const v: array<bv8>

    predicate IsSet(i: nat)
      requires i / 8 < v.Length
      reads v
    {
      Bit(v[i / 8], i % 8)
    }

    /** The array has just enough bytes and the leftover bits of the last one are set. */
    ghost predicate Valid()
      reads v
    {
      && v.Length == (nbits + 7) / 8
      && forall i :: nbits <= i < 8 * v.Length ==> IsSet(i)
    }

    ghost function Marked(): (s: set<nat>)
      requires Valid()
      reads v
    {
      set i: nat | i < nbits && IsSet(i)
    }

    /** `bitmap_create`: nothing is marked, and the leftover bits cannot be allocated. */
    constructor (n: nat)
      ensures nbits == n && fresh(v) && Valid() && Marked() == {}
    {
      nbits := n;
      var words := (n + 7) / 8;
      v := new bv8[words](_ => 0);
      new;
      if words > n / 8 {
        var ix := words - 1;
        var overbits := n - ix * 8;
        assert v[ix] == 0;
        for j := overbits to 8
          invariant forall k :: 0 <= k < ix ==> v[k] == 0
          invariant forall k :: 0 <= k < 8 ==> (Bit(v[ix], k) <==> overbits <= k < j)
        {
          ghost var w := v[ix];
          v[ix] := v[ix] | Mask(j);
          forall k | 0 <= k < 8 ensures Bit(v[ix], k) <==> k == j || Bit(w, k) {
            SetBit(w, j, k);
          }
        }
      }
    }

    /** `bitmap_alloc`: mark the lowest clear index; fail exactly when none is clear. */
    method Alloc() returns (index: Option<nat>)
      requires Valid()
      modifies v
      ensures Valid()
      ensures index == None <==> forall i: nat :: i < nbits ==> i in old(Marked())
      ensures index == None ==> Marked() == old(Marked())
      ensures index.Some? ==>
                && index.value < nbits && index.value !in old(Marked())
                && Marked() == old(Marked()) + {index.value}
                && forall i: nat :: i < index.value ==> i in old(Marked())
    {
      ghost var before := Marked();
      var ix := 0;
      while ix < v.Length
        invariant 0 <= ix <= v.Length
        invariant v[..] == old(v[..]) && Valid() && Marked() == before
        invariant forall i :: 0 <= i < 8 * ix ==> IsSet(i)
      {
        SomeClearBit(v[ix]);
        if v[ix] != 0xff {
          var offset := 0;
          while offset < 8
            invariant 0 <= offset <= 8
            invariant v[..] == old(v[..]) && Valid() && Marked() == before
            invariant forall k :: 0 <= k < offset ==> Bit(v[ix], k)
          {
            if v[ix] & Mask(offset) == 0 {
              var i := ix * 8 + offset;
              assert i / 8 == ix && i % 8 == offset && !IsSet(i);
              StoreMark(i);
              return Some(i);
            }
            offset := offset + 1;
          }
          assert false;
        }
        ix := ix + 1;
      }
      return None;
    }

    /** `v[i/8] |= 1 << i%8` for a clear bit. */
    method StoreMark(i: nat)
      requires Valid() && i < nbits && !IsSet(i)
      modifies v
      ensures Valid() && Marked() == old(Marked()) + {i}
    {
      ghost var w := v[i / 8];
      v[i / 8] := v[i / 8] | Mask(i % 8);
      forall j: nat | j / 8 < v.Length ensures IsSet(j) <==> j == i || old(IsSet(j)) {
        if j / 8 == i / 8 { SetBit(w, i % 8, j % 8); }
      }
    }

    /** `bitmap_mark`; the caller asserts the index is in range and clear. */
    method Mark(index: nat)
      requires Valid() && index < nbits && index !in Marked()
      modifies v
      ensures Valid() && Marked() == old(Marked()) + {index}
    {
      StoreMark(index);
    }

    /** `bitmap_unmark`; the caller asserts the index is in range and set. */
    method Unmark(index: nat)
      requires Valid() && index in Marked()
      modifies v
      ensures Valid() && Marked() == old(Marked()) - {index}
    {
      ghost var w := v[index / 8];
      v[index / 8] := v[index / 8] & !Mask(index % 8);
      forall j: nat | j / 8 < v.Length ensures IsSet(j) <==> j != index && old(IsSet(j)) {
        if j / 8 == index / 8 { ClearBit(w, index % 8, j % 8); }
      }
    }
  }
}
