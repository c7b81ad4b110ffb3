/**
 The kernel heap of `kmalloc.c` as a value: page descriptors, the free list of
 each heap page threaded through the first words of its free blocks, the
 descriptor lists and the in-use bits; and the invariant that its optional
 checkers (`checksubpage`, `checksubpages`) spell out.
 */
module HeapModel {
  import opened Sequences

  const PAGE := 4096
  const INVALID_OFFSET := 0xffff

  /** The block sizes. */
  function Size(b: nat): (n: nat)
    requires b < 8
    ensures 16 <= n <= 2048 && n * Blocks(b) == 4096
  {
    if b == 0 then 16 else if b == 1 then 32 else if b == 2 then 64 else if b == 3 then 128
    else if b == 4 then 256 else if b == 5 then 512 else if b == 6 then 1024 else 2048
  }

  /** Blocks per page. */
  function Blocks(b: nat): (n: nat)
    requires b < 8
    ensures 2 <= n <= 256
  {
    if b == 0 then 256 else if b == 1 then 128 else if b == 2 then 64 else if b == 3 then 32
    else if b == 4 then 16 else if b == 5 then 8 else if b == 6 then 4 else 2
  }

  /** `struct pageref`, without the list links. */
  datatype PageRef = PageRef(page: nat, blktype: nat, offset: nat, nfree: nat)

  /** `mem` holds the link words of free blocks (and whatever clients stored in theirs). */
  datatype Heap = Heap(mem: map<nat, nat>, refs: map<nat, PageRef>, all: seq<nat>, bySize: seq<seq<nat>>)

  /** History: free list contents per descriptor, descriptor of each heap page, live blocks with requested sizes. */
  datatype Aux = Aux(free: map<nat, seq<nat>>, owner: map<nat, nat>, live: map<nat, nat>)

  function Word(mem: map<nat, nat>, a: nat): nat {
    if a in mem then mem[a] else 0
  }

  // ---------------------------------------------------------------- free lists

  /** Following links from `head` visits exactly the blocks `fl` and ends at NULL. */
  ghost predicate Chain(mem: map<nat, nat>, head: nat, fl: seq<nat>)
    decreases |fl|
  {
    if fl == [] then head == 0 else head == fl[0] && head != 0 && Chain(mem, Word(mem, head), fl[1..])
  }

  /** Memory that agrees on the blocks of a list holds the same list. */
  lemma {:induction false} ChainFrame(mem: map<nat, nat>, other: map<nat, nat>, head: nat, fl: seq<nat>)
    requires Chain(mem, head, fl) && forall b :: b in fl ==> Word(other, b) == Word(mem, b)
    ensures Chain(other, head, fl)
    decreases |fl|
  {
    if fl != [] {
      assert fl[0] in fl;
      forall b | b in fl[1..] ensures Word(other, b) == Word(mem, b) { assert b in fl; }
      ChainFrame(mem, other, Word(mem, head), fl[1..]);
    }
  }

  function HeadOf(r: PageRef): nat {
    if r.offset == INVALID_OFFSET then 0 else r.page + r.offset
  }

  /** `a` is the start of a block of size `size` on the page. */
  predicate IsBlock(page: nat, size: nat, a: nat)
    requires size > 0
  {
    page <= a < page + 4096 && (a - page) % size == 0
  }

  // ---------------------------------------------------------------- invariant, seen from one descriptor and one address

  function PageOf(a: nat): nat {
    a - a % 4096
  }

  /** What `checksubpage` checks: the list is acyclic, has `nfree` blocks of this page, and none is in use. */
  ghost predicate RefOk(h: Heap, a: Aux, r: nat) {
    && r in h.refs && r in a.free
    && var p := h.refs[r];
       var fl := a.free[r];
    && p.blktype < 8 && p.page > 0 && p.page % 4096 == 0
    && (p.offset == INVALID_OFFSET || p.offset < 4096)
    && Chain(h.mem, HeadOf(p), fl) && Distinct(fl)
    && p.nfree == |fl| && p.nfree <= Blocks(p.blktype)
    && (forall b :: b in fl ==> IsBlock(p.page, Size(p.blktype), b) && b !in a.live)
    && p.page in a.owner && a.owner[p.page] == r
  }

  /** A live block lies on a heap page, is block aligned, big enough, and not free. */
  ghost predicate LiveOk(h: Heap, a: Aux, b: nat) {
    b in a.live ==>
      && PageOf(b) in a.owner
      && var r := a.owner[PageOf(b)];
      && r in h.refs && h.refs[r].blktype < 8 && h.refs[r].page == PageOf(b)
      && IsBlock(PageOf(b), Size(h.refs[r].blktype), b) && a.live[b] <= Size(h.refs[r].blktype)
  }

  /** Every block of a heap page is free or live. */
  ghost predicate BlockOk(h: Heap, a: Aux, r: nat, b: nat) {
    r in h.refs && r in a.free && h.refs[r].blktype < 8 && IsBlock(h.refs[r].page, Size(h.refs[r].blktype), b) ==>
      b in a.free[r] || b in a.live
  }

  ghost predicate OwnerOk(h: Heap, a: Aux, page: nat) {
    page in a.owner ==> a.owner[page] in h.all && a.owner[page] in h.refs && h.refs[a.owner[page]].page == page
  }

  /** Each descriptor is once on the list of all and once on the list of its own size, and on no other. */
  ghost predicate ListsOk(h: Heap) {
    && Distinct(h.all) && |h.bySize| == 8
    && (forall b :: 0 <= b < 8 ==> Distinct(h.bySize[b]))
    && (forall r :: r in h.all <==> r in h.refs)
    && (forall b, r :: 0 <= b < 8 ==> (r in h.bySize[b] <==> r in h.refs && h.refs[r].blktype == b))
  }

  /** The invariant, one thing at a time. */
  datatype Part = Lists | Descriptor(r: nat) | Live(b: nat) | Block(r: nat, b: nat) | Page(page: nat) | Used(r: nat)

  ghost predicate Holds(h: Heap, a: Aux, p: Part) {
    match p
    case Lists => ListsOk(h)
    case Descriptor(r) => r in h.refs ==> RefOk(h, a, r)
    case Live(b) => LiveOk(h, a, b)
    case Block(r, b) => BlockOk(h, a, r, b)
    case Page(page) => OwnerOk(h, a, page)
    case Used(r) => r in h.refs ==> Busy(h, r)
  }

  ghost predicate Shaped(h: Heap, a: Aux) {
    |h.bySize| == 8 && h.refs.Keys <= a.free.Keys
  }

  ghost predicate Core(h: Heap, a: Aux) {
    Shaped(h, a) && forall p: Part :: !p.Used? ==> Holds(h, a, p)
  }

  /** Between operations no listed page is wholly free. */
  ghost predicate Inv(h: Heap, a: Aux) {
    Shaped(h, a) && forall p: Part :: Holds(h, a, p)
  }

  lemma InvParts(h: Heap, a: Aux)
    ensures Inv(h, a) <==> Core(h, a) && forall r :: r in h.refs ==> Busy(h, r)
  {
    if Inv(h, a) {
      forall r | r in h.refs ensures Busy(h, r) { assert Holds(h, a, Used(r)); }
    }
    if Core(h, a) && forall r :: r in h.refs ==> Busy(h, r) {
      forall p: Part ensures Holds(h, a, p) { if p.Used? { assert p.r in h.refs ==> Busy(h, p.r); } }
    }
  }

  ghost predicate Busy(h: Heap, r: nat) {
    r in h.refs && h.refs[r].blktype < 8 && h.refs[r].nfree < Blocks(h.refs[r].blktype)
  }

  // ---------------------------------------------------------------- the main property

  /** Bytes from `b` on that belong to the block. */
  ghost function Extent(h: Heap, a: Aux, b: nat): nat {
    if PageOf(b) in a.owner && a.owner[PageOf(b)] in h.refs && h.refs[a.owner[PageOf(b)]].blktype < 8
    then Size(h.refs[a.owner[PageOf(b)]].blktype) else 0
  }

  lemma AlignedApart(x: nat, y: nat, size: nat)
    requires size > 0 && x % size == 0 && y % size == 0 && x < y
    ensures x + size <= y
  {
    var k, l := x / size, y / size;
    assert x == k * size && y == l * size;
    assert l <= k ==> l * size <= k * size;
    assert (k + 1) * size <= l * size;
  }

  lemma BlockInPage(page: nat, b: nat, k: nat)
    requires k < 8 && page % 4096 == 0 && IsBlock(page, Size(k), b)
    ensures b + Size(k) <= page + 4096 && PageOf(b) == page
  {
    AlignedApart(b - page, 4096, Size(k));
  }

  /** Live blocks are at least as large as requested, block aligned, and pairwise disjoint. */
  lemma LiveBlocksDisjoint(h: Heap, a: Aux, b: nat, c: nat)
    requires Core(h, a) && b in a.live && c in a.live && b < c
    ensures a.live[b] <= Extent(h, a, b) && b + Extent(h, a, b) <= c
  {
    assert Holds(h, a, Live(b)) && Holds(h, a, Live(c));
    var p, q := PageOf(b), PageOf(c);
    var r := a.owner[p];
    assert Holds(h, a, Descriptor(r));
    if p == q {
      AlignedApart(b - p, c - p, Size(h.refs[r].blktype));
    } else {
      BlockInPage(p, b, h.refs[r].blktype);
      PagesApart(b, c);
    }
  }

  lemma PagesApart(b: nat, c: nat)
    requires b < c && PageOf(b) != PageOf(c)
    ensures PageOf(b) + 4096 <= PageOf(c)
  {}

  // ---------------------------------------------------------------- taking a block

  /** The descriptor after its head block, whose link word is `next`, has been taken. */
  ghost function TakeRef(p: PageRef, next: nat): PageRef
    requires p.nfree > 0
  {
    p.(offset := if next < p.page then INVALID_OFFSET else next - p.page, nfree := p.nfree - 1)
  }

  ghost predicate CanTake(h: Heap, a: Aux, r: nat, sz: nat) {
    && Core(h, a) && r in h.refs && h.refs[r].nfree > 0
    && RefOk(h, a, r) && sz <= Size(h.refs[r].blktype)
  }

  /** What the head of a non-empty free list looks like. */
  lemma HeadBlock(h: Heap, a: Aux, r: nat)
    requires RefOk(h, a, r) && h.refs[r].nfree > 0
    ensures var p := h.refs[r]; var fl := a.free[r]; var next := Word(h.mem, fl[0]);
            && p.offset < 4096 && HeadOf(p) == fl[0] && fl[0] !in fl[1..] && fl[0] !in a.live
            && IsBlock(p.page, Size(p.blktype), fl[0]) && PageOf(fl[0]) == p.page
            && Chain(h.mem, next, fl[1..])
            && (next == 0 <==> p.nfree == 1)
            && (next != 0 ==> p.page <= next < p.page + 4096 && next in fl)
  {
    var p, fl := h.refs[r], a.free[r];
    assert fl[0] in fl;
    BlockInPage(p.page, fl[0], p.blktype);
    if p.nfree > 1 { assert fl[1] == fl[1..][0] && fl[1] in fl; }
  }

  ghost function Take(h: Heap, r: nat): Heap
    requires r in h.refs && h.refs[r].nfree > 0
  {
    h.(refs := h.refs[r := TakeRef(h.refs[r], Word(h.mem, HeadOf(h.refs[r])))])
  }

  ghost function TakeAux(a: Aux, r: nat, sz: nat): Aux
    requires r in a.free && a.free[r] != []
  {
    a.(free := a.free[r := a.free[r][1..]], live := a.live[a.free[r][0] := sz])
  }

  lemma TakeRefOk(h: Heap, a: Aux, r: nat, sz: nat, s: nat)
    requires CanTake(h, a, r, sz) && s in h.refs
    ensures RefOk(Take(h, r), TakeAux(a, r, sz), s)
  {
    HeadBlock(h, a, r);
    assert Holds(h, a, Descriptor(s));
    var p, fl := a.free[r][0], a.free[s];
    if s == r {
      assert forall b :: b in fl[1..] ==> b in fl;
    } else {
      forall b | b in fl ensures b != p { BlockInPage(h.refs[s].page, b, h.refs[s].blktype); }
    }
  }

  lemma TakeLiveOk(h: Heap, a: Aux, r: nat, sz: nat, b: nat)
    requires CanTake(h, a, r, sz)
    ensures LiveOk(Take(h, r), TakeAux(a, r, sz), b)
  {
    HeadBlock(h, a, r);
    assert Holds(h, a, Live(b));
  }

  lemma TakeBlockOk(h: Heap, a: Aux, r: nat, sz: nat, s: nat, b: nat)
    requires CanTake(h, a, r, sz)
    ensures BlockOk(Take(h, r), TakeAux(a, r, sz), s, b)
  {
    assert Holds(h, a, Block(s, b));
    var fl := a.free[r];
    assert b in fl ==> b == fl[0] || b in fl[1..];
  }

  /** Popping the free list keeps the invariant. */
  lemma TakeKeepsCore(h: Heap, a: Aux, r: nat, sz: nat)
    requires CanTake(h, a, r, sz)
    ensures Core(Take(h, r), TakeAux(a, r, sz))
  {
    var h', a' := Take(h, r), TakeAux(a, r, sz);
    forall p: Part | !p.Used? ensures Holds(h', a', p) {
      match p
      case Lists => assert Holds(h, a, Lists);
      case Descriptor(s) => if s in h.refs { TakeRefOk(h, a, r, sz, s); }
      case Live(x) => TakeLiveOk(h, a, r, sz, x);
      case Block(s, x) => TakeBlockOk(h, a, r, sz, s, x);
      case Page(q) => assert Holds(h, a, Page(q));
    }
  }

  // ---------------------------------------------------------------- threading a fresh page

  /** The free list of the first `n` blocks, last block first. */
  ghost function Stack(page: nat, size: nat, n: nat): seq<nat> {
    if n == 0 then [] else [page + (n - 1) * size] + Stack(page, size, n - 1)
  }

  /** The links written by the loop over the blocks of a fresh page. */
  ghost function Threaded(mem: map<nat, nat>, page: nat, size: nat, n: nat): map<nat, nat>
    requires n > 0
  {
    if n == 1 then mem[page := 0]
    else Threaded(mem, page, size, n - 1)[page + (n - 1) * size := page + (n - 2) * size]
  }

  lemma {:induction false} StackMember(page: nat, size: nat, n: nat, b: nat)
    requires size > 0
    ensures |Stack(page, size, n)| == n
    ensures b in Stack(page, size, n) <==> page <= b < page + n * size && (b - page) % size == 0
  {
    if n == 0 {
      assert n * size == 0;
    } else {
      StackMember(page, size, n - 1, b);
      var c := page + (n - 1) * size;
      assert b in Stack(page, size, n) <==> b == c || b in Stack(page, size, n - 1);
      MultipleAtEnd(b - page, size, n - 1);
    }
  }

  lemma MultipleAtEnd(x: int, size: nat, n: nat)
    requires size > 0
    ensures (n + 1) * size == n * size + size
    ensures (n * size) % size == 0
    ensures n * size <= x < (n + 1) * size && x % size == 0 ==> x == n * size
  {
    MultipleMod(n, size);
    if n * size < x < (n + 1) * size && x % size == 0 {
      AlignedApart(n * size, x, size);
    }
  }

  lemma MultipleMod(n: nat, size: nat)
    requires size > 0
    ensures (n * size) % size == 0
  {
    var q, r := (n * size) / size, (n * size) % size;
    assert (n - q) * size == r;
    assert n - q >= 1 ==> (n - q) * size >= size;
    assert q - n >= 1 ==> (q - n) * size >= size;
  }

  lemma {:induction false} StackDistinct(page: nat, size: nat, n: nat)
    requires size > 0
    ensures Distinct(Stack(page, size, n))
  {
    if n > 0 {
      StackDistinct(page, size, n - 1);
      StackMember(page, size, n - 1, page + (n - 1) * size);
      var rest := Stack(page, size, n - 1);
      assert forall j :: 0 <= j < |rest| ==> rest[j] in rest;
    }
  }

  lemma {:induction false} ThreadedElsewhere(mem: map<nat, nat>, page: nat, size: nat, n: nat, x: nat)
    requires n > 0 && size > 0 && !(page <= x < page + n * size)
    ensures Word(Threaded(mem, page, size, n), x) == Word(mem, x)
  {
    if n > 1 {
      assert n * size == (n - 1) * size + size;
      ThreadedElsewhere(mem, page, size, n - 1, x);
    }
  }

  lemma ChainPush(mem: map<nat, nat>, b: nat, next: nat, fl: seq<nat>)
    requires Chain(mem, next, fl) && b > 0 && b !in fl
    ensures Chain(mem[b := next], b, [b] + fl)
  {
    ChainFrame(mem, mem[b := next], next, fl);
    assert ([b] + fl)[1..] == fl;
  }

  /** After the loop the page's blocks form one list, last block first. */
  lemma {:induction false} ThreadedChain(mem: map<nat, nat>, page: nat, size: nat, n: nat)
    requires n > 0 && size > 0 && page > 0
    ensures Chain(Threaded(mem, page, size, n), page + (n - 1) * size, Stack(page, size, n))
  {
    var rest := Stack(page, size, n - 1);
    var last, next := page + (n - 1) * size, page + (n - 2) * size;
    assert last !in rest by { StackMember(page, size, n - 1, last); }
    if n == 1 {
      assert Chain(mem, 0, rest);
      ChainPush(mem, page, 0, rest);
    } else {
      ThreadedChain(mem, page, size, n - 1);
      ChainPush(Threaded(mem, page, size, n - 1), last, next, rest);
    }
  }

  // ---------------------------------------------------------------- installing a fresh page

  ghost predicate CanInstall(h: Heap, a: Aux, r: nat, page: nat, b: nat) {
    && Core(h, a) && r !in h.refs && b < 8
    && page > 0 && page % 4096 == 0 && page !in a.owner
  }

  ghost function Install(h: Heap, r: nat, page: nat, b: nat): Heap
    requires b < 8 && |h.bySize| == 8
  {
    Heap(Threaded(h.mem, page, Size(b), Blocks(b)),
         h.refs[r := PageRef(page, b, 4096 - Size(b), Blocks(b))],
         [r] + h.all,
         h.bySize[b := [r] + h.bySize[b]])
  }

  ghost function InstallAux(a: Aux, r: nat, page: nat, b: nat): Aux
    requires b < 8
  {
    a.(free := a.free[r := Stack(page, Size(b), Blocks(b))], owner := a.owner[page := r])
  }

  lemma InstallLists(h: Heap, r: nat, page: nat, b: nat)
    requires ListsOk(h) && r !in h.refs && b < 8
    ensures ListsOk(Install(h, r, page, b))
  {
    PushDistinct(h.all, r);
    PushDistinct(h.bySize[b], r);
  }

  lemma PushDistinct(q: seq<nat>, r: nat)
    requires Distinct(q) && r !in q
    ensures Distinct([r] + q)
  {
    assert forall j :: 0 <= j < |q| ==> q[j] in q;
  }

  lemma LastBlock(page: nat, b: nat)
    requires b < 8
    ensures page + (Blocks(b) - 1) * Size(b) == page + (4096 - Size(b))
  {}

  lemma InstallNew(h: Heap, a: Aux, r: nat, page: nat, b: nat)
    requires CanInstall(h, a, r, page, b)
    ensures RefOk(Install(h, r, page, b), InstallAux(a, r, page, b), r)
  {
    var size, n := Size(b), Blocks(b);
    ThreadedChain(h.mem, page, size, n);
    LastBlock(page, b);
    StackDistinct(page, size, n);
    StackMember(page, size, n, page);
    forall x | x in Stack(page, size, n) ensures IsBlock(page, size, x) && x !in a.live {
      StackMember(page, size, n, x);
      BlockInPage(page, x, b);
      assert Holds(h, a, Live(x));
    }
  }

  lemma InstallOther(h: Heap, a: Aux, r: nat, page: nat, b: nat, s: nat)
    requires CanInstall(h, a, r, page, b) && s in h.refs
    ensures RefOk(Install(h, r, page, b), InstallAux(a, r, page, b), s)
  {
    assert Holds(h, a, Descriptor(s));
    var p, fl := h.refs[s], a.free[s];
    var mem := Threaded(h.mem, page, Size(b), Blocks(b));
    forall x | x in fl ensures Word(mem, x) == Word(h.mem, x) {
      BlockInPage(p.page, x, p.blktype);
      OffPage(page, x);
      ThreadedElsewhere(h.mem, page, Size(b), Blocks(b), x);
    }
    ChainFrame(h.mem, mem, HeadOf(p), fl);
  }

  lemma OffPage(page: nat, x: nat)
    requires page % 4096 == 0 && PageOf(x) != page
    ensures !(page <= x < page + 4096)
  {}

  lemma InstallBlockOk(h: Heap, a: Aux, r: nat, page: nat, b: nat, s: nat, x: nat)
    requires CanInstall(h, a, r, page, b)
    ensures BlockOk(Install(h, r, page, b), InstallAux(a, r, page, b), s, x)
  {
    if s == r {
      StackMember(page, Size(b), Blocks(b), x);
    } else {
      assert Holds(h, a, Block(s, x));
    }
  }

  /** Adding a fresh page, all of whose blocks are free, keeps the invariant. */
  lemma InstallKeepsCore(h: Heap, a: Aux, r: nat, page: nat, b: nat)
    requires CanInstall(h, a, r, page, b)
    ensures Core(Install(h, r, page, b), InstallAux(a, r, page, b))
  {
    var h', a' := Install(h, r, page, b), InstallAux(a, r, page, b);
    forall p: Part | !p.Used? ensures Holds(h', a', p) {
      match p
      case Lists => 
        assert Holds(h, a, Lists);
        InstallLists(h, r, page, b);
      case Descriptor(s) => 
        if s == r { InstallNew(h, a, r, page, b); } else if s in h.refs { InstallOther(h, a, r, page, b, s); }
      case Live(x) => assert Holds(h, a, Live(x)) && Holds(h, a, Page(PageOf(x)));
      case Block(s, x) => InstallBlockOk(h, a, r, page, b, s, x);
      case Page(q) => assert Holds(h, a, Page(q));
    }
  }

  // ---------------------------------------------------------------- giving a block back

  /** The words of a freed block after `fill_deadbeef`. */
  ghost function Filled(mem: map<nat, nat>, p: nat, words: nat): map<nat, nat> {
    if words == 0 then mem else Filled(mem, p, words - 1)[p + 4 * (words - 1) := 0xdeadbeef]
  }

  lemma {:induction false} FilledElsewhere(mem: map<nat, nat>, p: nat, words: nat, x: nat)
    requires !(p <= x < p + 4 * words)
    ensures Word(Filled(mem, p, words), x) == Word(mem, x)
  {
    if words > 0 { FilledElsewhere(mem, p, words - 1, x); }
  }

  ghost predicate CanPut(h: Heap, a: Aux, r: nat, p: nat) {
    && Core(h, a) && Busy(h, r) && p in a.live
    && PageOf(p) == h.refs[r].page && RefOk(h, a, r)
  }

  ghost function Put(h: Heap, r: nat, p: nat): Heap
    requires r in h.refs && h.refs[r].blktype < 8 && h.refs[r].page <= p
  {
    h.(mem := Filled(h.mem, p, Size(h.refs[r].blktype) / 4)[p := HeadOf(h.refs[r])],
       refs := h.refs[r := h.refs[r].(offset := p - h.refs[r].page, nfree := h.refs[r].nfree + 1)])
  }

  ghost function PutAux(a: Aux, r: nat, p: nat): Aux
    requires r in a.free
  {
    a.(free := a.free[r := [p] + a.free[r]], live := a.live - {p})
  }

  /** Freeing writes only inside the freed block. */
  lemma PutElsewhere(h: Heap, r: nat, p: nat, x: nat)
    requires r in h.refs && h.refs[r].blktype < 8 && h.refs[r].page <= p
    requires !(p <= x < p + Size(h.refs[r].blktype))
    ensures Word(Put(h, r, p).mem, x) == Word(h.mem, x)
  {
    FilledElsewhere(h.mem, p, Size(h.refs[r].blktype) / 4, x);
  }

  lemma LiveBlock(h: Heap, a: Aux, r: nat, p: nat)
    requires CanPut(h, a, r, p)
    ensures IsBlock(h.refs[r].page, Size(h.refs[r].blktype), p) && a.owner[PageOf(p)] == r && p !in a.free[r]
  {
    assert Holds(h, a, Live(p));
  }

  lemma DifferentPages(page: nat, page': nat, x: nat)
    requires page % 4096 == 0 && page' % 4096 == 0 && page != page' && page' <= x < page' + 4096
    ensures !(page <= x < page + 4096)
  {}

  /** Other blocks of the heap lie outside a given block. */
  lemma BlocksApart(page: nat, k: nat, p: nat, page': nat, k': nat, x: nat)
    requires k < 8 && k' < 8 && page % 4096 == 0 && page' % 4096 == 0
    requires IsBlock(page, Size(k), p) && IsBlock(page', Size(k'), x)
    requires x != p && (page == page' ==> k == k')
    ensures !(p <= x < p + Size(k))
  {
    BlockInPage(page, p, k);
    if page != page' {
      DifferentPages(page, page', x);
    } else if p < x {
      AlignedApart(p - page, x - page, Size(k));
    }
  }

  lemma PutChain(h: Heap, a: Aux, r: nat, p: nat, s: nat)
    requires CanPut(h, a, r, p) && s in h.refs
    ensures Chain(Put(h, r, p).mem, HeadOf(h.refs[s]), a.free[s])
  {
    assert Holds(h, a, Descriptor(s));
    LiveBlock(h, a, r, p);
    var o, q := h.refs[r], h.refs[s];
    forall x | x in a.free[s] ensures Word(Put(h, r, p).mem, x) == Word(h.mem, x) {
      BlocksApart(o.page, o.blktype, p, q.page, q.blktype, x);
      PutElsewhere(h, r, p, x);
    }
    ChainFrame(h.mem, Put(h, r, p).mem, HeadOf(q), a.free[s]);
  }

  lemma PutRefOk(h: Heap, a: Aux, r: nat, p: nat, s: nat)
    requires CanPut(h, a, r, p) && s in h.refs
    ensures RefOk(Put(h, r, p), PutAux(a, r, p), s)
  {
    LiveBlock(h, a, r, p);
    PutChain(h, a, r, p, s);
    assert Holds(h, a, Descriptor(s));
    if s == r {
      PushDistinct(a.free[r], p);
      assert ([p] + a.free[r])[1..] == a.free[r];
    }
  }

  /** Pushing a freed block keeps the invariant, except that the page may now be wholly free. */
  lemma PutKeepsCore(h: Heap, a: Aux, r: nat, p: nat)
    requires CanPut(h, a, r, p)
    ensures Core(Put(h, r, p), PutAux(a, r, p))
  {
    var h', a' := Put(h, r, p), PutAux(a, r, p);
    forall part: Part | !part.Used? ensures Holds(h', a', part) {
      match part
      case Lists => assert Holds(h, a, Lists);
      case Descriptor(s) => if s in h.refs { PutRefOk(h, a, r, p, s); }
      case Live(x) => assert Holds(h, a, Live(x));
      case Block(s, x) => PutBlockOk(h, a, r, p, s, x);
      case Page(q) => assert Holds(h, a, Page(q));
    }
  }

  lemma PutBlockOk(h: Heap, a: Aux, r: nat, p: nat, s: nat, x: nat)
    requires CanPut(h, a, r, p)
    ensures BlockOk(Put(h, r, p), PutAux(a, r, p), s, x)
  {
    assert Holds(h, a, Block(s, x));
    LiveBlock(h, a, r, p);
    if s in h.refs && x == p && s != r {
      assert Holds(h, a, Descriptor(s));
      if h.refs[s].blktype < 8 && IsBlock(h.refs[s].page, Size(h.refs[s].blktype), p) {
        BlockInPage(h.refs[s].page, p, h.refs[s].blktype);
        assert false;
      }
    }
  }

  // ---------------------------------------------------------------- removing a page that became wholly free

  /** A list without its first `r`, as `remove_lists` leaves it. */
  function Without(q: seq<nat>, r: nat): seq<nat> {
    if q == [] then [] else if q[0] == r then q[1..] else [q[0]] + Without(q[1..], r)
  }

  lemma {:induction false} WithoutMember(q: seq<nat>, r: nat, x: nat)
    requires Distinct(q)
    ensures x in Without(q, r) <==> x in q && x != r
  {
    if q != [] {
      assert q[0] in q && (x in q <==> x == q[0] || x in q[1..]);
      assert q[0] !in q[1..];
      if q[0] != r { WithoutMember(q[1..], r, x); }
    }
  }

  lemma {:induction false} WithoutDistinct(q: seq<nat>, r: nat)
    requires Distinct(q)
    ensures Distinct(Without(q, r))
  {
    if q != [] && q[0] != r {
      WithoutDistinct(q[1..], r);
      assert q[0] !in q[1..];
      WithoutMember(q[1..], r, q[0]);
      PushDistinct(Without(q[1..], r), q[0]);
    }
  }

  lemma {:induction false} SubsetOfSameSize(s: set<nat>, t: set<nat>)
    requires s <= t && |s| == |t|
    ensures s == t
  {
    if s != t {
      var x :| x in t && x !in s;
      Smaller(s, t - {x});
      assert false;
    }
  }

  lemma {:induction false} Smaller(s: set<nat>, t: set<nat>)
    requires s <= t
    ensures |s| <= |t|
  {
    if s != {} {
      var x :| x in s;
      Smaller(s - {x}, t - {x});
    }
  }

  /** A free list with as many blocks as the page holds every block of the page. */
  lemma FullListCovers(page: nat, b: nat, fl: seq<nat>, x: nat)
    requires b < 8 && Distinct(fl) && |fl| == Blocks(b)
    requires forall y :: y in fl ==> IsBlock(page, Size(b), y)
    requires IsBlock(page, Size(b), x)
    ensures x in fl
  {
    var every := Stack(page, Size(b), Blocks(b));
    StackDistinct(page, Size(b), Blocks(b));
    StackMember(page, Size(b), Blocks(b), x);
    forall y | y in fl ensures y in every { StackMember(page, Size(b), Blocks(b), y); }
    SubsetOfSameSize(Elements(fl), Elements(every));
    assert x in Elements(every);
  }

  ghost predicate CanDrop(h: Heap, a: Aux, r: nat) {
    && Core(h, a) && RefOk(h, a, r) && h.refs[r].nfree == Blocks(h.refs[r].blktype)
  }

  ghost function Drop(h: Heap, r: nat): Heap
    requires r in h.refs && h.refs[r].blktype < 8 && |h.bySize| == 8
  {
    var b := h.refs[r].blktype;
    h.(refs := h.refs - {r}, all := Without(h.all, r), bySize := h.bySize[b := Without(h.bySize[b], r)])
  }

  ghost function DropAux(a: Aux, r: nat, page: nat): Aux {
    a.(free := a.free - {r}, owner := a.owner - {page})
  }

  /** Nothing on a wholly free page is live. */
  lemma WhollyFree(h: Heap, a: Aux, r: nat, x: nat)
    requires CanDrop(h, a, r) && PageOf(x) == h.refs[r].page
    ensures x !in a.live
  {
    if x in a.live {
      assert Holds(h, a, Live(x));
      var p := h.refs[r];
      FullListCovers(p.page, p.blktype, a.free[r], x);
    }
  }

  lemma DropLists(h: Heap, r: nat)
    requires ListsOk(h) && r in h.refs && h.refs[r].blktype < 8
    ensures ListsOk(Drop(h, r))
  {
    var b := h.refs[r].blktype;
    WithoutDistinct(h.all, r);
    WithoutDistinct(h.bySize[b], r);
    forall x ensures x in Without(h.all, r) <==> x in h.all && x != r { WithoutMember(h.all, r, x); }
    forall x ensures x in Without(h.bySize[b], r) <==> x in h.bySize[b] && x != r { WithoutMember(h.bySize[b], r, x); }
  }

  /** Giving a wholly free page back keeps the invariant. */
  lemma DropKeepsCore(h: Heap, a: Aux, r: nat)
    requires CanDrop(h, a, r)
    ensures Core(Drop(h, r), DropAux(a, r, h.refs[r].page))
  {
    var page := h.refs[r].page;
    var h', a' := Drop(h, r), DropAux(a, r, page);
    forall p: Part | !p.Used? ensures Holds(h', a', p) {
      match p
      case Lists => 
        assert Holds(h, a, Lists);
        DropLists(h, r);
      case Descriptor(s) => assert Holds(h, a, Descriptor(s));
      case Live(x) => 
        assert Holds(h, a, Live(x));
        if PageOf(x) == page { WhollyFree(h, a, r, x); }
      case Block(s, x) => assert Holds(h, a, Block(s, x));
      case Page(q) => DropOwner(h, a, r, q);
    }
  }

  lemma DropOwner(h: Heap, a: Aux, r: nat, q: nat)
    requires CanDrop(h, a, r)
    ensures OwnerOk(Drop(h, r), DropAux(a, r, h.refs[r].page), q)
  {
    assert Holds(h, a, Lists) && Holds(h, a, Page(q));
    DropLists(h, r);
    if q in a.owner && q != h.refs[r].page {
      assert a.owner[q] in Drop(h, r).refs;
    }
  }

  // ---------------------------------------------------------------- clients

  /** The link word of every free block is the same in both. */
  ghost predicate SameLinks(h: Heap, a: Aux, mem: map<nat, nat>) {
    forall s, y :: s in h.refs && s in a.free && y in a.free[s] ==> Word(mem, y) == Word(h.mem, y)
  }

  /** The invariant sees memory only through the links of free blocks. */
  lemma SameLinksKeepInv(h: Heap, a: Aux, mem: map<nat, nat>)
    requires Inv(h, a) && SameLinks(h, a, mem)
    ensures Inv(h.(mem := mem), a)
  {
    var h' := h.(mem := mem);
    forall p: Part ensures Holds(h', a, p) {
      assert Holds(h, a, p);
      if p.Descriptor? && p.r in h.refs { ChainFrame(h.mem, mem, HeadOf(h.refs[p.r]), a.free[p.r]); }
    }
  }

  /** A client may store anything in its own live block. */
  lemma ClientStoreKeepsInv(h: Heap, a: Aux, b: nat, x: nat, v: nat)
    requires Inv(h, a) && b in a.live && b <= x < b + Extent(h, a, b)
    ensures Inv(h.(mem := h.mem[x := v]), a)
  {
    assert Holds(h, a, Live(b));
    var r := a.owner[PageOf(b)];
    assert Holds(h, a, Descriptor(r));
    forall s, y | s in h.refs && s in a.free && y in a.free[s] ensures y != x {
      assert Holds(h, a, Descriptor(s));
      BlocksApart(h.refs[r].page, h.refs[r].blktype, b, h.refs[s].page, h.refs[s].blktype, y);
    }
    SameLinksKeepInv(h, a, h.mem[x := v]);
  }

  /** `x` lies in the live block that starts at `b`. */
  ghost predicate InBlock(h: Heap, a: Aux, b: nat, x: nat) {
    b in a.live && b <= x < b + Extent(h, a, b)
  }

  /** Blocks live before and after keep their extent and every word in them. */
  ghost predicate Untouched(h: Heap, a: Aux, h': Heap, a': Aux) {
    forall b, x :: InBlock(h, a, b, x) && b in a'.live ==>
                     InBlock(h', a', b, x) && Word(h'.mem, x) == Word(h.mem, x)
  }

  lemma TakeUntouched(h: Heap, a: Aux, r: nat, sz: nat)
    requires CanTake(h, a, r, sz)
    ensures Untouched(h, a, Take(h, r), TakeAux(a, r, sz))
  {}

  lemma InstallUntouched(h: Heap, a: Aux, r: nat, page: nat, b: nat)
    requires CanInstall(h, a, r, page, b)
    ensures Untouched(h, a, Install(h, r, page, b), InstallAux(a, r, page, b))
  {
    forall c, x | InBlock(h, a, c, x)
      ensures InBlock(Install(h, r, page, b), InstallAux(a, r, page, b), c, x)
      ensures Word(Install(h, r, page, b).mem, x) == Word(h.mem, x)
    {
      assert Holds(h, a, Live(c)) && Holds(h, a, Page(PageOf(c)));
      BlockInPage(PageOf(c), c, h.refs[a.owner[PageOf(c)]].blktype);
      SamePage(c, x);
      OffPage(page, x);
      ThreadedElsewhere(h.mem, page, Size(b), Blocks(b), x);
    }
  }

  lemma SamePage(c: nat, x: nat)
    requires PageOf(c) <= x < PageOf(c) + 4096
    ensures PageOf(x) == PageOf(c)
  {}

  lemma PutUntouched(h: Heap, a: Aux, r: nat, p: nat)
    requires CanPut(h, a, r, p)
    ensures Untouched(h, a, Put(h, r, p), PutAux(a, r, p))
  {
    LiveBlock(h, a, r, p);
    forall c: nat, x: nat | InBlock(h, a, c, x) && c != p
      ensures InBlock(Put(h, r, p), PutAux(a, r, p), c, x) && Word(Put(h, r, p).mem, x) == Word(h.mem, x)
    {
      if c < p { LiveBlocksDisjoint(h, a, c, p); } else { LiveBlocksDisjoint(h, a, p, c); }
      PutElsewhere(h, r, p, x);
    }
  }

  lemma DropUntouched(h: Heap, a: Aux, r: nat)
    requires CanDrop(h, a, r)
    ensures Untouched(h, a, Drop(h, r), DropAux(a, r, h.refs[r].page))
  {
    forall c, x | InBlock(h, a, c, x) ensures InBlock(Drop(h, r), DropAux(a, r, h.refs[r].page), c, x) {
      assert Holds(h, a, Live(c));
      if PageOf(c) == h.refs[r].page { WhollyFree(h, a, r, c); }
    }
  }

  lemma UntouchedTrans(h: Heap, a: Aux, h1: Heap, a1: Aux, h2: Heap, a2: Aux)
    requires Untouched(h, a, h1, a1) && Untouched(h1, a1, h2, a2)
    requires forall b :: b in a.live && b in a2.live ==> b in a1.live
    ensures Untouched(h, a, h2, a2)
  {}

  // ---------------------------------------------------------------- the two ends of an allocation's life

  /** Taking a block from an installed page gives a new live block, at least as large as asked for. */
  lemma TakeKeepsInv(h: Heap, a: Aux, r: nat, sz: nat)
    requires CanTake(h, a, r, sz) && forall s :: s in h.refs && s != r ==> Busy(h, s)
    ensures Inv(Take(h, r), TakeAux(a, r, sz))
    ensures a.free[r][0] !in a.live && a.free[r][0] > 0
  {
    TakeKeepsCore(h, a, r, sz);
    HeadBlock(h, a, r);
    forall s | s in h.refs ensures Busy(Take(h, r), s) {
      assert s != r ==> Busy(h, s);
      assert Holds(h, a, Descriptor(r));
    }
    InvParts(Take(h, r), TakeAux(a, r, sz));
  }

  /** Freeing a block that leaves its page partly used. */
  lemma PutKeepsInv(h: Heap, a: Aux, r: nat, p: nat)
    requires Inv(h, a) && CanPut(h, a, r, p) && h.refs[r].nfree + 1 < Blocks(h.refs[r].blktype)
    ensures Inv(Put(h, r, p), PutAux(a, r, p))
  {
    PutKeepsCore(h, a, r, p);
    forall s | s in h.refs ensures Busy(Put(h, r, p), s) { assert Holds(h, a, Used(s)); }
    InvParts(Put(h, r, p), PutAux(a, r, p));
  }

  /** Freeing the last block of a page gives the page back. */
  lemma DropKeepsInv(h: Heap, a: Aux, r: nat)
    requires CanDrop(h, a, r) && forall s :: s in h.refs && s != r ==> Busy(h, s)
    ensures Inv(Drop(h, r), DropAux(a, r, h.refs[r].page))
  {
    DropKeepsCore(h, a, r);
    forall s | s in Drop(h, r).refs ensures Busy(Drop(h, r), s) { assert Busy(h, s); }
    InvParts(Drop(h, r), DropAux(a, r, h.refs[r].page));
  }
}
