/**
 The kernel allocator of `kmalloc.c`: page descriptors handed out from bit
 tables, subpage allocation and freeing in place, and the redirection of large
 requests to whole pages.
 */
module Kmalloc {
  import opened Options
  import opened HeapModel
  import opened HeapRuns

  const LARGEST := 2048

  function Index(w: nat, j: nat): nat {
    256 * w + j
  }

  function Count(bits: seq<bool>): nat {
    if bits == [] then 0 else (if bits[0] then 1 else 0) + Count(bits[1..])
  }

  lemma {:induction false} CountUpdate(bits: seq<bool>, j: nat, v: bool)
    requires j < |bits|
    ensures Count(bits[j := v]) == Count(bits) - (if bits[j] then 1 else 0) + (if v then 1 else 0)
  {
    if j == 0 {
      assert bits[j := v][1..] == bits[1..];
    } else {
      assert bits[j := v][1..] == bits[1..][j - 1 := v];
      CountUpdate(bits[1..], j - 1, v);
    }
  }

  lemma {:induction false} CountBound(bits: seq<bool>)
    ensures Count(bits) <= |bits|
    ensures Count(bits) == |bits| <==> forall j :: 0 <= j < |bits| ==> bits[j]
  {
    if bits != [] {
      CountBound(bits[1..]);
      assert forall j :: 1 <= j < |bits| ==> bits[j] == bits[1..][j - 1];
      assert forall j :: 0 <= j < |bits[1..]| ==> bits[1..][j] == bits[j + 1];
    }
  }

  /** `kheaproots`: sixteen tables of in-use bits, each with a count and a page of descriptors obtained on demand. */
  class Descriptors {
    var inuse: seq<seq<bool>>
    var numinuse: seq<nat>
    var present: seq<bool>

    ghost predicate Valid()
      reads this
    {
      && |inuse| == 16 && |numinuse| == 16 && |present| == 16
      && (forall w :: 0 <= w < 16 ==> |inuse[w]| == 256 && numinuse[w] == Count(inuse[w]))
    }

    ghost predicate IsSet(r: nat)
      requires Valid()
      reads this
    {
      r < 4096 && inuse[r / 256][r % 256]
    }

    /** Descriptor `r` lives on a page that exists. */
    ghost predicate Backed(r: nat)
      requires Valid()
      reads this
    {
      r < 4096 && present[r / 256]
    }

    /** The in-use bits are the listed descriptors and those lost to a failed descriptor-page allocation. */
    ghost predicate Match(listed: set<nat>, leaked: set<nat>)
      requires Valid()
      reads this
    {
      && (forall r :: IsSet(r) <==> r in listed || r in leaked)
      && (forall r :: r in listed ==> r !in leaked && Backed(r))
    }

    constructor ()
      ensures Valid() && forall r: nat :: !IsSet(r) && !Backed(r)
    {
      var empty := seq(256, i => false);
      inuse := seq(16, i => empty);
      numinuse := seq(16, i => 0);
      present := seq(16, i => false);
      new;
      assert forall w :: 0 <= w < 16 ==> inuse[w] == empty;
      NoneSet(empty);
    }

    /** The search for a clear bit of one table. */
    method FindClear(w: nat) returns (j: nat)
      requires Valid() && w < 16 && numinuse[w] < 256
      ensures j < 256 && !inuse[w][j] && forall i :: 0 <= i < j ==> inuse[w][i]
    {
      CountBound(inuse[w]);
      j := 0;
      while inuse[w][j]
        invariant j < 256 && forall i :: 0 <= i < j ==> inuse[w][i]
        decreases 256 - j
      {
        assert exists i :: 0 <= i < 256 && !inuse[w][i];
        j := j + 1;
      }
    }

    method FindTable() returns (w: nat)
      requires Valid()
      ensures w <= 16 && forall v :: 0 <= v < w ==> numinuse[v] == 256
      ensures w < 16 ==> numinuse[w] < 256
    {
      w := 0;
      while w < 16 && numinuse[w] >= 256
        invariant w <= 16 && forall v :: 0 <= v < w ==> numinuse[v] == 256
      {
        CountBound(inuse[w]);
        w := w + 1;
      }
    }

    /**
     `allocpageref`: the lowest clear bit is set and its descriptor returned.
     When the table has no descriptor page and none can be had, the bit stays
     set although no descriptor is returned.
     */
    method Alloc(obtain: bool) returns (r: Option<nat>, ghost bit: nat)
      requires Valid()
      modifies this
      ensures Valid() && bit <= 4096
      ensures forall i :: 0 <= i < bit ==> old(IsSet(i))
      ensures bit < 4096 ==> !old(IsSet(bit))
      ensures forall i :: IsSet(i) <==> old(IsSet(i)) || (i == bit && bit < 4096)
      ensures forall i: nat :: Backed(i) <==> old(Backed(i)) || (obtain && bit < 4096 && i < 4096 && i / 256 == bit / 256)
      ensures r == if bit < 4096 && Backed(bit) then Some(bit) else None
    {
      var w := FindTable();
      FullTables(w);
      if w == 16 { return None, 4096; }
      var j := FindClear(w);
      bit := Index(w, j);
      assert bit / 256 == w && bit % 256 == j;
      LowestBit(w, j);
      CountUpdate(inuse[w], j, true);
      inuse := inuse[w := inuse[w][j := true]];
      numinuse := numinuse[w := numinuse[w] + 1];
      if !present[w] && obtain { present := present[w := true]; }
      r := if present[w] then Some(Index(w, j)) else None;
    }

    lemma FullTables(w: nat)
      requires Valid() && w <= 16 && forall v :: 0 <= v < w ==> numinuse[v] == 256
      ensures forall v, i :: 0 <= v < w && 0 <= i < 256 ==> inuse[v][i]
      ensures forall i :: 0 <= i < 256 * w ==> IsSet(i)
    {
      forall v | 0 <= v < w ensures forall i :: 0 <= i < 256 ==> inuse[v][i] { CountBound(inuse[v]); }
    }

    lemma LowestBit(w: nat, j: nat)
      requires Valid() && w < 16 && j < 256
      requires forall i :: 0 <= i < 256 * w ==> IsSet(i)
      requires forall i :: 0 <= i < j ==> inuse[w][i]
      ensures forall i :: 0 <= i < Index(w, j) ==> IsSet(i)
    {
      forall i | 256 * w <= i < 256 * w + j ensures IsSet(i) {
        assert i / 256 == w && i % 256 == i - 256 * w;
      }
    }

    /** `freepageref` meets its assertion: no table before this one holds bits without a page. */
    ghost predicate Findable(r: nat)
      requires Valid()
      reads this
    {
      forall w :: 0 <= w < r / 256 && w < 16 && !present[w] ==> numinuse[w] == 0
    }

    /** `freepageref`: clears exactly this bit; `ok` is false when an assertion would fail. */
    method Free(r: nat) returns (ok: bool)
      requires Valid() && IsSet(r) && Backed(r)
      modifies this
      ensures Valid() && (ok <==> old(Findable(r)))
      ensures ok ==> forall i :: IsSet(i) <==> old(IsSet(i)) && i != r
      ensures !ok ==> forall i :: IsSet(i) <==> old(IsSet(i))
      ensures forall i :: Backed(i) <==> old(Backed(i))
    {
      var w := 0;
      while w < r / 256
        invariant w <= r / 256
        invariant forall v :: 0 <= v < w && !present[v] ==> numinuse[v] == 0
      {
        if !present[w] && numinuse[w] != 0 { return false; }
        w := w + 1;
      }
      var j := r % 256;
      CountUpdate(inuse[w], j, false);
      inuse := inuse[w := inuse[w][j := false]];
      numinuse := numinuse[w := numinuse[w] - 1];
      assert forall i: nat :: i / 256 == w && i % 256 == j ==> i == r;
      ok := true;
    }
  }

  lemma {:induction false} NoneSet(bits: seq<bool>)
    requires forall j :: 0 <= j < |bits| ==> !bits[j]
    ensures Count(bits) == 0
  {
    if bits != [] { NoneSet(bits[1..]); }
  }

  lemma {:induction false} SomeSet(bits: seq<bool>, j: nat)
    requires j < |bits| && bits[j]
    ensures Count(bits) > 0
  {
    if j > 0 { SomeSet(bits[1..], j - 1); }
  }

  /**
   What the assertion in `freepageref` relies on: were no page to be had for the
   first table until all its bits are lost, and one for the second, releasing a
   descriptor of the second table would trip over the first. An `alloc_kpages` that
   never returns 0, as this kernel's after start-up, loses no bit: see `Heap.Kmalloc`.
   */
  method LostBitsHaltFree() returns (ok: bool)
    ensures !ok
  {
    var d := new Descriptors();
    var r: Option<nat>;
    ghost var bit;
    var n := 0;
    while n < 256
      invariant n <= 256 && d.Valid() && fresh(d)
      invariant forall i: nat :: d.IsSet(i) <==> i < n
      invariant forall i: nat :: !d.Backed(i)
    {
      assert !d.IsSet(n);
      r, bit := d.Alloc(false);
      assert bit == n;
      n := n + 1;
    }
    assert !d.IsSet(256);
    r, bit := d.Alloc(true);
    assert bit == 256;
    assert d.IsSet(0) && !d.Backed(0);
    SomeSet(d.inuse[0], 0);
    ok := d.Free(256);
  }

  // ---------------------------------------------------------------- sizes

  /** `blocktype`: the smallest size that fits; None is the panic. */
  method BlockType(sz: nat) returns (b: Option<nat>)
    ensures b == None <==> sz > 2048
    ensures b.Some? ==> b.value < 8 && sz <= Size(b.value) && forall c :: 0 <= c < b.value ==> Size(c) < sz
  {
    var i := 0;
    while i < 8
      invariant i <= 8 && forall c :: 0 <= c < i ==> Size(c) < sz
    {
      if sz <= Size(i) { return Some(i); }
      i := i + 1;
    }
    assert Size(7) < sz;
    return None;
  }

  // ---------------------------------------------------------------- the allocator

  /** What `subpage_kfree` comes to; `HeadAgain` and `Halted` are failed assertions, its own and the one in `freepageref`. */
  datatype FreeResult = Foreign | BadAddress | HeadAgain | Freed(page: Option<nat>) | Halted

  /** No smaller block would do. */
  ghost predicate Tight(size: nat, sz: nat) {
    sz <= size && forall c: nat :: c < 8 && sz <= Size(c) ==> size <= Size(c)
  }

  lemma TightFit(b: nat, sz: nat)
    requires b < 8 && sz <= Size(b) && forall c :: 0 <= c < b ==> Size(c) < sz
    ensures Tight(Size(b), sz)
  {
    forall c: nat | c < 8 && sz <= Size(c) ensures Size(b) <= Size(c) { assert c >= b; }
  }

  class Heap {
    var mem: map<nat, nat>
    var refs: map<nat, PageRef>
    var all: seq<nat>
    var bySize: seq<seq<nat>>
    const bits: Descriptors
    ghost var aux: Aux
    ghost var leaked: set<nat>
    ghost var big: map<nat, nat>

    ghost function State(): HeapModel.Heap
      reads this
    {
      HeapModel.Heap(mem, refs, all, bySize)
    }

    ghost function Snap(): Snapshot
      reads this
    {
      Snapshot(State(), aux, big)
    }

    ghost predicate Valid()
      reads this, bits
    {
      Good(Snap()) && bits.Valid() && bits.Match(refs.Keys, leaked)
    }

    constructor ()
      ensures Valid() && fresh(bits) && Start(Snap()) && leaked == {}
    {
      mem, refs, all, bySize := map[], map[], [], [[], [], [], [], [], [], [], []];
      bits := new Descriptors();
      aux, leaked, big := Aux(map[], map[], map[]), {}, map[];
    }

    /** Pop the free list of a page, asserting what the source asserts. */
    method TakeBlock(r: nat) returns (p: nat)
      requires HeadReady(State(), r)
      modifies `refs
      ensures State() == old(Take(State(), r)) && p == old(HeadOf(refs[r]))
      ensures refs.Keys == old(refs.Keys)
    {
      var pr := refs[r];
      assert pr.offset < PAGE;
      p := pr.page + pr.offset;
      var next := Word(mem, p);
      pr := pr.(nfree := pr.nfree - 1);
      if next != 0 {
        assert pr.nfree > 0 && next - pr.page < PAGE;
        pr := pr.(offset := next - pr.page);
      } else {
        assert pr.nfree == 0;
        pr := pr.(offset := INVALID_OFFSET);
      }
      refs := refs[r := pr];
    }

    /** Some page of this size has a free block. */
    ghost predicate Available(b: nat)
      reads this
    {
      b < |bySize| && exists r :: r in bySize[b] && r in refs && refs[r].nfree > 0
    }

    /** `r` is the first on the list with a free block. */
    ghost predicate FirstUsable(q: seq<nat>, r: nat)
      reads this
    {
      exists i :: 0 <= i < |q| && q[i] == r && forall k :: 0 <= k < i ==> q[k] in refs && refs[q[k]].nfree == 0
    }

    /** The search of the list of pages of the right size. */
    method FindPage(b: nat) returns (r: Option<nat>)
      requires Good(Snap()) && b < 8
      ensures r == None <==> !Available(b)
      ensures r.Some? ==> r.value in refs && refs[r.value].blktype == b && refs[r.value].nfree > 0
      ensures r.Some? ==> FirstUsable(bySize[b], r.value)
    {
      assert Holds(State(), aux, Lists);
      var q := bySize[b];
      var i := 0;
      while i < |q|
        invariant i <= |q| && forall k :: 0 <= k < i ==> q[k] in refs && refs[q[k]].nfree == 0
      {
        assert q[i] in bySize[b];
        if refs[q[i]].nfree > 0 { return Some(q[i]); }
        i := i + 1;
      }
      return None;
    }

    /** The loop that threads a fresh page's free list. */
    method ThreadPage(page: nat, b: nat)
      requires b < 8
      modifies `mem
      ensures mem == Threaded(old(mem), page, Size(b), Blocks(b))
    {
      var size, n := Size(b), Blocks(b);
      mem := mem[page := 0];
      var i := 1;
      while i < n
        invariant 1 <= i <= n && mem == Threaded(old(mem), page, size, i)
      {
        mem := mem[page + i * size := page + (i - 1) * size];
        i := i + 1;
      }
    }

    /** Put a fresh page with its descriptor on both lists. */
    method InstallPage(r: nat, page: nat, b: nat)
      requires b < 8 && |bySize| == 8
      modifies `mem, `refs, `all, `bySize
      ensures State() == old(Install(State(), r, page, b))
    {
      var n := Blocks(b);
      ThreadPage(page, b);
      refs := refs[r := PageRef(page, b, (n - 1) * Size(b), n)];
      bySize := bySize[b := [r] + bySize[b]];
      all := [r] + all;
      LastBlock(page, b);
    }
  
    /** Allocation from a page that is already there. */
    method AllocExisting(b: nat, ghost sz: nat) returns (p: nat, ghost e: Event)
      requires Valid() && b < 8 && sz <= Size(b)
      modifies `refs, `aux
      ensures Valid() && (p == 0 <==> !old(Available(b)))
      ensures p == 0 ==> Snap() == old(Snap())
      ensures p != 0 ==> Did(old(Snap()), e, Snap()) && Allocated(old(State()), old(aux), State(), aux, p, sz)
      ensures p != 0 ==> Extent(State(), aux, p) == Size(b)
      ensures aux.owner == old(aux.owner)
    {
      ghost var s := Snap();
      p, e := 0, TakeListed(0, sz);
      var found := FindPage(b);
      if found == None { return; }
      var r := found.value;
      e := TakeListed(r, sz);
      StepKeepsGood(s, e);
      ghost var h, a, q := TakeTo(s.h, s.a, r, sz);
      p := TakeBlock(r);
      aux := a;
      assert Snap() == Apply(s, e);
    }

    /** Obtain a descriptor; a set bit without one is lost. */
    method AllocRef(obtain: bool) returns (r: Option<nat>)
      requires bits.Valid() && bits.Match(refs.Keys, leaked)
      modifies `leaked, bits
      ensures bits.Valid() && leaked >= old(leaked)
      ensures r == None ==> bits.Match(refs.Keys, leaked)
      ensures r.Some? ==> r.value !in refs && leaked == old(leaked) && bits.Match(refs.Keys + {r.value}, leaked)
      ensures obtain && r == None ==> leaked == old(leaked) && forall i :: 0 <= i < 4096 ==> bits.IsSet(i)
    {
      ghost var bit;
      r, bit := bits.Alloc(obtain);
      if r == None && bit < 4096 { leaked := leaked + {bit}; }
    }

    /** Install a fresh page under descriptor `r` and allocate from it. */
    method AllocFrom(r: nat, b: nat, page: nat, ghost sz: nat) returns (p: nat, ghost e: Event)
      requires Good(Snap()) && r !in refs && b < 8 && sz <= Size(b) && FreshRun(aux.owner.Keys, big, page, 1)
      modifies `mem, `refs, `all, `bySize, `aux
      ensures Good(Snap()) && Did(old(Snap()), e, Snap()) && Allocated(old(State()), old(aux), State(), aux, p, sz)
      ensures refs.Keys == old(refs.Keys) + {r} && aux.owner.Keys == old(aux.owner.Keys) + {page}
      ensures Extent(State(), aux, p) == Size(b)
    {
      ghost var s := Snap();
      e := TakeFresh(r, page, b, sz);
      StepKeepsGood(s, e);
      ghost var h, a, q := InstallTo(s.h, s.a, r, page, b, sz);
      InstallPage(r, page, b);
      p := TakeBlock(r);
      aux := a;
      assert Snap() == Apply(s, e);
    }

    /** Allocation from a fresh page: `page` is what `alloc_kpages` returned; it goes back when no descriptor can be had. */
    method AllocFresh(b: nat, page: nat, obtain: bool, ghost sz: nat)
      returns (p: nat, back: Option<nat>, ghost e: Event)
      requires Valid() && b < 8 && sz <= Size(b) && FreshRun(aux.owner.Keys, big, page, 1)
      modifies `mem, `refs, `all, `bySize, `aux, `leaked, bits
      ensures Valid() && leaked >= old(leaked)
      ensures p == 0 ==> Snap() == old(Snap())
      ensures p != 0 ==>
                && Did(old(Snap()), e, Snap()) && Allocated(old(State()), old(aux), State(), aux, p, sz)
                && leaked == old(leaked) && Extent(State(), aux, p) == Size(b)
      ensures aux.owner.Keys == old(aux.owner.Keys) + (if p != 0 then {page} else {})
      ensures back == if p != 0 then None else Some(page)
      ensures obtain && p == 0 ==> leaked == old(leaked) && forall i :: 0 <= i < 4096 ==> bits.IsSet(i)
    {
      p, back, e := 0, None, TakeListed(0, sz);
      var pr := AllocRef(obtain);
      if pr == None {
        back := Some(page);
        return;
      }
      p, e := AllocFrom(pr.value, b, page, sz);
    }

    /**
     `subpage_kmalloc`. `page` is what `alloc_kpages` would return (0 when out of
     memory) and `obtain` says whether a descriptor page can be had. `asked` says
     that `alloc_kpages` was called; `back` is the page given to `free_kpages`.
     */
    method SubpageKmalloc(b: nat, page: nat, obtain: bool, ghost sz: nat)
      returns (p: nat, asked: bool, back: Option<nat>, ghost e: Event)
      requires Valid() && b < 8 && sz <= Size(b) && (page != 0 ==> FreshRun(aux.owner.Keys, big, page, 1))
      modifies `mem, `refs, `all, `bySize, `aux, `leaked, bits
      ensures Valid() && leaked >= old(leaked) && (obtain ==> leaked == old(leaked))
      ensures p == 0 ==> Snap() == old(Snap()) && !old(Available(b))
      ensures p != 0 ==>
                && Did(old(Snap()), e, Snap()) && Allocated(old(State()), old(aux), State(), aux, p, sz)
                && leaked == old(leaked) && Extent(State(), aux, p) == Size(b)
      ensures page != 0 && obtain && p == 0 ==> forall i :: 0 <= i < 4096 ==> bits.IsSet(i)
      ensures asked <==> !old(Available(b))
      ensures aux.owner.Keys == old(aux.owner.Keys) + (if asked && p != 0 then {page} else {})
      ensures back == if asked && page != 0 && p == 0 then Some(page) else None
    {
      p, e := AllocExisting(b, sz);
      asked, back := p == 0, None;
      if asked && page != 0 { p, back, e := AllocFresh(b, page, obtain, sz); }
    }

    /** `remove_lists` on one list: the link to the descriptor is replaced by the one after it. */
    method Unlink(q: seq<nat>, r: nat) returns (out: seq<nat>)
      ensures out == Without(q, r)
    {
      var i := 0;
      while i < |q| && q[i] != r
        invariant i <= |q| && Without(q, r) == q[..i] + Without(q[i..], r)
      {
        assert q[i..][1..] == q[i + 1..];
        i := i + 1;
      }
      out := if i < |q| then q[..i] + q[i + 1..] else q;
    }

    /** `fill_deadbeef`. */
    method FillDeadbeef(p: nat, len: nat)
      modifies `mem
      ensures mem == Filled(old(mem), p, len / 4)
    {
      var i := 0;
      while i < len / 4
        invariant i <= len / 4 && mem == Filled(old(mem), p, i)
      {
        mem := mem[p + 4 * i := 0xdeadbeef];
        i := i + 1;
      }
    }

    /** Fill the block and push it on its page's free list. */
    method PutBlock(r: nat, p: nat)
      requires r in refs && refs[r].blktype < 8 && refs[r].page <= p && p != HeadOf(refs[r])
      modifies `mem, `refs
      ensures State() == old(Put(State(), r, p))
    {
      var pr := refs[r];
      FillDeadbeef(p, Size(pr.blktype));
      var next := if pr.offset == INVALID_OFFSET then 0 else pr.page + pr.offset;
      assert p != next;
      mem := mem[p := next];
      refs := refs[r := pr.(offset := p - pr.page, nfree := pr.nfree + 1)];
    }

    /** The search of the list of all pages for the one holding an address. */
    method FindOwner(p: nat) returns (r: Option<nat>)
      requires Good(Snap())
      ensures r == None <==> PageOf(p) !in aux.owner
      ensures r.Some? ==> r.value in refs && refs[r.value].page == PageOf(p) && aux.owner[PageOf(p)] == r.value
    {
      assert Holds(State(), aux, Lists);
      var i := 0;
      while i < |all|
        invariant i <= |all| && forall k :: 0 <= k < i ==> all[k] in refs && refs[all[k]].page != PageOf(p)
      {
        assert all[i] in all;
        assert Holds(State(), aux, Descriptor(all[i]));
        var page := refs[all[i]].page;
        WithinPage(page, p);
        if page <= p < page + 4096 { return Some(all[i]); }
        i := i + 1;
      }
      assert Holds(State(), aux, Page(PageOf(p)));
      return None;
    }

    /** The page is wholly free: off both lists, and its descriptor and bit released. */
    method DropPage(r: nat) returns (ok: bool)
      requires |bySize| == 8 && r in refs && refs[r].blktype < 8
      requires bits.Valid() && bits.Match(refs.Keys, leaked)
      modifies `refs, `all, `bySize, bits
      ensures bits.Valid() && (leaked == {} ==> ok)
      ensures ok ==> State() == old(Drop(State(), r)) && bits.Match(refs.Keys, leaked)
      ensures refs.Keys == old(refs.Keys) - {r}
    {
      var b := refs[r].blktype;
      var same := Unlink(bySize[b], r);
      bySize := bySize[b := same];
      all := Unlink(all, r);
      if leaked == {} { NothingLeaked(refs.Keys, r); }
      refs := refs - {r};
      ok := bits.Free(r);
    }

    /** Without lost bits, a table without a page has no bits set. */
    lemma NothingLeaked(listed: set<nat>, r: nat)
      requires bits.Valid() && bits.Match(listed, {})
      ensures bits.Findable(r)
    {
      forall w | 0 <= w < 16 && !bits.present[w] ensures bits.numinuse[w] == 0 {
        forall j | 0 <= j < 256 ensures !bits.inuse[w][j] {
          var i := Index(w, j);
          assert i / 256 == w && i % 256 == j;
          assert bits.IsSet(i) ==> i in listed;
        }
        NoneSet(bits.inuse[w]);
      }
    }

    /** Push the block and, when that leaves the page wholly free, give the page up. */
    method ReleaseInPlace(r: nat, p: nat) returns (ok: bool, page: Option<nat>)
      requires |bySize| == 8 && r in refs && refs[r].blktype < 8 && refs[r].page <= p
      requires refs[r].nfree < Blocks(refs[r].blktype) && p != HeadOf(refs[r])
      requires bits.Valid() && bits.Match(refs.Keys, leaked)
      modifies `mem, `refs, `all, `bySize, bits
      ensures bits.Valid() && (leaked == {} ==> ok) && (ok ==> bits.Match(refs.Keys, leaked))
      ensures page == old(if refs[r].nfree + 1 == Blocks(refs[r].blktype) then Some(refs[r].page) else None)
      ensures ok && page.Some? ==> State() == old(Drop(Put(State(), r, p), r))
      ensures page == None ==> ok && State() == old(Put(State(), r, p))
    {
      var pr := refs[r];
      PutBlock(r, p);
      assert refs.Keys == old(refs.Keys);
      PerPage(pr.blktype);
      assert refs[r].nfree <= PAGE / Size(pr.blktype);
      if refs[r].nfree == 4096 / Size(pr.blktype) {
        ok := DropPage(r);
        return ok, Some(pr.page);
      }
      return true, None;
    }

    /** A block on its page's free list. */
    ghost predicate IsFree(p: nat)
      reads this
    {
      PageOf(p) in aux.owner && aux.owner[PageOf(p)] in aux.free && p in aux.free[aux.owner[PageOf(p)]]
    }

    /** `page` is the page of `p` if the heap no longer holds it, and the heap holds all other pages as before. */
    ghost predicate GivesUp(a: Aux, a': Aux, p: nat, page: Option<nat>) {
      && page == (if PageOf(p) in a'.owner then None else Some(PageOf(p)))
      && a'.owner.Keys == a.owner.Keys - (if page.Some? then {page.value} else {})
    }

    /** Push a block of page `r` that is live, or free but not first on its list; history follows a live one only. */
    method ReleaseBlock(r: nat, p: nat) returns (ok: bool, page: Option<nat>)
      requires Valid() && r in refs && refs[r].page == PageOf(p) && (p in aux.live || IsFree(p)) && p != HeadOf(refs[r])
      modifies `mem, `refs, `all, `bySize, `aux, bits
      ensures leaked == {} ==> ok
      ensures ok ==> Defined(old(Snap()), PutBack(r, p)) && State() == Apply(old(Snap()), PutBack(r, p)).h
      ensures ok && p in old(aux.live) ==>
                && Valid() && Did(old(Snap()), PutBack(r, p), Snap())
                && Released(old(State()), old(aux), State(), aux, p) && GivesUp(old(aux), aux, p, page)
    {
      ghost var s := Snap();
      OnItsPage(s.h, s.a, r, p);
      RefIsDefined(s, r, p);
      ghost var after := aux;
      if p in aux.live {
        StepKeepsGood(s, PutBack(r, p));
        ghost var h, a, dropped := ReleaseTo(s.h, s.a, r, p);
        after := a;
      }
      ok, page := ReleaseInPlace(r, p);
      aux := after;
      assert ok ==> State() == Apply(s, PutBack(r, p)).h;
    }

    /**
     `subpage_kfree`, for any address. Freeing a block that is already free trips an
     assertion when it is the first on its list; otherwise it goes through, and
     DoubleFreeLoops says what that does to the list.
     */
    method SubpageKfree(p: nat) returns (result: FreeResult, ghost r: nat)
      requires Valid()
      modifies `mem, `refs, `all, `bySize, `aux, bits
      ensures result == Foreign <==> PageOf(p) !in old(aux.owner)
      ensures PageOf(p) in old(aux.owner) ==> r == old(aux.owner)[PageOf(p)] && r in old(refs)
      ensures result == BadAddress <==> PageOf(p) in old(aux.owner) && p !in old(aux.live) && !old(IsFree(p))
      ensures result == HeadAgain <==> old(IsFree(p)) && p == HeadOf(old(refs)[r])
      ensures result in {Foreign, BadAddress} ==> Valid() && Snap() == old(Snap())
      ensures p in old(aux.live) && result.Freed? ==>
                && Valid() && Did(old(Snap()), PutBack(r, p), Snap())
                && Released(old(State()), old(aux), State(), aux, p) && GivesUp(old(aux), aux, p, result.page)
      ensures old(IsFree(p)) && result.Freed? ==>
                Defined(old(Snap()), PutBack(r, p)) && State() == Apply(old(Snap()), PutBack(r, p)).h
      ensures result == Halted ==> leaked != {}
    {
      var found := FindOwner(p);
      r := 0;
      if found == None { return Foreign, r; }
      var owner := found.value;
      r := owner;
      OnItsPage(State(), aux, r, p);
      if (p - refs[owner].page) % Size(refs[owner].blktype) != 0 { return BadAddress, r; }
      if p == refs[owner].page + refs[owner].offset { return HeadAgain, r; }
      var ok, page := ReleaseBlock(owner, p);
      return if ok then Freed(page) else Halted, r;
    }

    /** A large request: whole pages. */
    method ObtainPages(sz: nat, address: nat) returns (p: nat, ghost e: Event)
      requires Valid() && (address != 0 ==> FreshRun(aux.owner.Keys, big, address, PagesFor(sz)))
      modifies `big
      ensures Valid() && p == address && e == ObtainLarge(p, sz)
      ensures p == 0 ==> Snap() == old(Snap())
      ensures p != 0 ==> Did(old(Snap()), e, Snap())
    {
      p, e := address, ObtainLarge(address, sz);
      if address != 0 {
        StepKeepsGood(Snap(), e);
        big := big[address := PagesFor(sz)];
      }
    }

    /**
     `kmalloc`: small requests come from the subpage pools, the others get whole
     pages. `address` is what `alloc_kpages` would return, 0 when out of memory.
     A block is at least as large as asked for unless rounding to pages wraps.
     */
    method Kmalloc(sz: nat, address: nat, obtain: bool)
      returns (p: nat, asked: bool, back: Option<nat>, ghost e: Event)
      requires Valid() && sz < 0x1_0000_0000
      requires address != 0 ==> FreshRun(aux.owner.Keys, big, address, if sz < 2048 then 1 else PagesFor(sz))
      modifies `mem, `refs, `all, `bySize, `aux, `leaked, `big, bits
      ensures Valid() && leaked >= old(leaked) && (obtain ==> leaked == old(leaked))
      ensures p == 0 ==> Snap() == old(Snap())
      ensures p != 0 ==> Did(old(Snap()), e, Snap())
      ensures p != 0 && sz < 2048 ==> Allocated(old(State()), old(aux), State(), aux, p, sz)
      ensures p != 0 && sz < 2048 ==> Tight(Extent(State(), aux, p), sz)
      ensures p != 0 && sz >= 2048 ==> p == address && e == ObtainLarge(p, sz)
      ensures sz >= 2048 ==> asked && back == None && aux.owner == old(aux.owner)
      ensures sz < 2048 ==>
                && aux.owner.Keys == old(aux.owner.Keys) + (if asked && p != 0 then {address} else {})
                && back == if asked && address != 0 && p == 0 then Some(address) else None
    {
      if sz >= LARGEST {
        asked, back := true, None;
        p, e := ObtainPages(sz, address);
        return;
      }
      var b := BlockType(sz);
      TightFit(b.value, sz);
      p, asked, back, e := SubpageKmalloc(b.value, address, obtain, sz);
    }

    /** A client writes a word of a block it holds, small or large. */
    method ClientStore(b: nat, x: nat, v: nat)
      requires Valid() && Covers(Snap(), b, x)
      modifies `mem
      ensures Valid() && Did(old(Snap()), Store(b, x, v), Snap())
    {
      StepKeepsGood(Snap(), Store(b, x, v));
      mem := mem[x := v];
    }

    /**
     `kfree` of NULL, of a live small block or of a large one; false is the failed
     assertion in `freepageref`. `back` is the address given to `free_kpages`.
     */
    method Kfree(p: nat) returns (ok: bool, back: Option<nat>, ghost e: Event)
      requires Valid() && (p == 0 || p in aux.live || p in big)
      modifies `mem, `refs, `all, `bySize, `aux, `big, bits
      ensures leaked == {} ==> ok
      ensures ok ==> Valid() && aux.live == old(aux.live) - {p} && big == old(big) - {p}
      ensures ok && p == 0 ==> Snap() == old(Snap())
      ensures ok && p != 0 ==> Did(old(Snap()), e, Snap())
      ensures p in old(big) ==> e == ReleaseLarge(p)
      ensures p in old(aux.live) ==> e.PutBack? && e.p == p
      ensures ok && p in old(aux.live) ==> GivesUp(old(aux), aux, p, back)
      ensures p in old(big) ==> back == Some(p)
      ensures p == 0 ==> back == None
    {
      ghost var s := Snap();
      e := ReleaseLarge(p);
      NullIsNobodys(s.h, s.a, s.big);
      if p == 0 {
        assert aux.live - {0} == aux.live && big - {0} == big;
        return true, None, e;
      }
      FreeTarget(s.h, s.a, s.big, p);
      var result;
      ghost var r;
      result, r := SubpageKfree(p);
      if result == Foreign {
        assert p % PAGE == 0;
        StepKeepsGood(s, e);
        big := big - {p};
        back := Some(p);
        assert aux.live - {p} == aux.live;
      } else {
        e := PutBack(r, p);
        back := if result.Freed? then result.page else None;
        assert big - {p} == big;
      }
      ok := result != Halted;
    }
  }

  lemma WithinPage(page: nat, p: nat)
    requires page % 4096 == 0
    ensures page <= p < page + 4096 <==> PageOf(p) == page
  {}
}
