/**
 Whole runs of the kernel heap: what each call does to it as a step on values,
 small blocks from the pools and large ones as runs of pages, with clients
 storing into their own blocks in between.
 */
module HeapRuns {
  import opened Options
  import opened HeapModel

  // ---------------------------------------------------------------- large blocks

  /** Pages requested for a large block, in 32-bit arithmetic. */
  function PagesFor(sz: nat): nat {
    ((sz + 4095) % 0x1_0000_0000) / 4096
  }

  /** The pages cover a large request exactly when the rounding does not wrap. */
  lemma PagesCover(sz: nat)
    requires sz < 0x1_0000_0000
    ensures PagesFor(sz) * 4096 >= sz <==> sz <= 0x1_0000_0000 - 4096
    ensures PagesFor(sz) * 4096 < sz + 4096
    ensures sz > 0x1_0000_0000 - 4096 ==> PagesFor(sz) == 0
  {
    if sz <= 0x1_0000_0000 - 4096 {
      assert (sz + 4095) % 0x1_0000_0000 == sz + 4095;
    } else {
      assert (sz + 4095) % 0x1_0000_0000 == sz + 4095 - 0x1_0000_0000;
    }
  }

  /** Page runs that do not overlap. */
  ghost predicate Apart(p: nat, n: nat, q: nat, m: nat) {
    p + n * 4096 <= q || q + m * 4096 <= p
  }

  /** `alloc_kpages` hands out pages nobody holds. */
  ghost predicate FreshRun(pages: set<nat>, big: map<nat, nat>, p: nat, n: nat) {
    && p > 0 && p % 4096 == 0 && p !in pages && p !in big
    && (forall page :: page in pages ==> Apart(p, n, page, 1))
    && (forall s :: s in big ==> Apart(p, n, s, big[s]))
  }

  ghost predicate RunsApart(pages: set<nat>, big: map<nat, nat>) {
    && (forall s :: s in big ==> s > 0 && s % 4096 == 0)
    && (forall s, page :: s in big && page in pages ==> s != page && Apart(s, big[s], page, 1))
    && (forall s, t :: s in big && t in big && s != t ==> Apart(s, big[s], t, big[t]))
  }

  /** Small and large blocks never overlap either. */
  lemma LargeBlocksDisjoint(h: Heap, a: Aux, big: map<nat, nat>, b: nat, s: nat)
    requires Inv(h, a) && RunsApart(a.owner.Keys, big) && b in a.live && s in big
    ensures b + Extent(h, a, b) <= s || s + big[s] * 4096 <= b
  {
    var page, size := PageOf(b), Extent(h, a, b);
    assert page in a.owner && page <= b && b + size <= page + 4096 by {
      assert Holds(h, a, Live(b));
      BlockInPage(page, b, h.refs[a.owner[page]].blktype);
    }
    assert Apart(s, big[s], page, 1);
    ApartFromBlock(b, size, page, s, big[s]);
  }

  lemma ApartFromBlock(b: nat, size: nat, page: nat, s: nat, n: nat)
    requires page <= b && b + size <= page + 4096 && Apart(s, n, page, 1)
    ensures b + size <= s || s + n * 4096 <= b
  {}

  lemma RunsApartAdd(pages: set<nat>, page: nat, big: map<nat, nat>)
    requires RunsApart(pages, big) && FreshRun(pages, big, page, 1)
    ensures RunsApart(pages + {page}, big)
  {
    forall s | s in big ensures s != page && Apart(s, big[s], page, 1) { assert Apart(page, 1, s, big[s]); }
  }

  lemma RunsApartGrow(pages: set<nat>, big: map<nat, nat>, p: nat, n: nat)
    requires RunsApart(pages, big) && FreshRun(pages, big, p, n)
    ensures RunsApart(pages, big[p := n])
  {
    forall s | s in big ensures Apart(s, big[s], p, n) { assert Apart(p, n, s, big[s]); }
  }

  lemma RunsApartSubset(pages: set<nat>, fewer: set<nat>, big: map<nat, nat>)
    requires RunsApart(pages, big) && fewer <= pages
    ensures RunsApart(fewer, big)
  {}

  lemma NullIsNobodys(h: Heap, a: Aux, big: map<nat, nat>)
    requires Inv(h, a) && RunsApart(a.owner.Keys, big)
    ensures 0 !in a.live && 0 !in big
  {
    if 0 in a.live { LivePage(h, a, 0); }
  }

  lemma LivePage(h: Heap, a: Aux, b: nat)
    requires Inv(h, a) && b in a.live
    ensures PageOf(b) > 0 && PageOf(b) in a.owner
    ensures a.owner[PageOf(b)] in a.free ==> b !in a.free[a.owner[PageOf(b)]]
  {
    assert Holds(h, a, Live(b));
    assert Holds(h, a, Descriptor(a.owner[PageOf(b)]));
  }

  /** A pointer to free is a small block on a heap page or a large block on none, never both. */
  lemma FreeTarget(h: Heap, a: Aux, big: map<nat, nat>, p: nat)
    requires Inv(h, a) && RunsApart(a.owner.Keys, big) && (p in a.live || p in big)
    ensures p in a.live ==> PageOf(p) in a.owner && p !in big
    ensures p in a.live && a.owner[PageOf(p)] in a.free ==> p !in a.free[a.owner[PageOf(p)]]
    ensures p in big ==> PageOf(p) !in a.owner && p % 4096 == 0 && p !in a.live
  {
    if p in a.live { LivePage(h, a, p); }
    assert p in big ==> PageOf(p) == p;
    assert forall page :: p in big && page in a.owner ==> p != page;
  }

  /** A live block is not the first of a free list. */
  lemma LiveIsNotHead(h: Heap, a: Aux, r: nat, p: nat)
    requires Inv(h, a) && r in h.refs && p in a.live
    ensures p != HeadOf(h.refs[r])
  {
    assert Holds(h, a, Descriptor(r));
    if h.refs[r].nfree > 0 { HeadBlock(h, a, r); } else { NullIsNobodys(h, a, map[]); }
  }

  lemma OnItsPage(h: Heap, a: Aux, r: nat, p: nat)
    requires Inv(h, a) && r in h.refs && h.refs[r].page == PageOf(p)
    ensures h.refs[r].blktype < 8 && 0 < h.refs[r].page <= p < h.refs[r].page + 4096
    ensures p in a.live ==> CanPut(h, a, r, p) && IsBlock(PageOf(p), Size(h.refs[r].blktype), p) && p != HeadOf(h.refs[r])
    ensures r in a.free && p in a.free[r] ==> IsBlock(PageOf(p), Size(h.refs[r].blktype), p) && p !in a.live
    ensures IsBlock(PageOf(p), Size(h.refs[r].blktype), p) ==> p in a.live || (r in a.free && p in a.free[r])
  {
    assert Holds(h, a, Descriptor(r)) && Holds(h, a, Used(r)) && Holds(h, a, Live(p)) && Holds(h, a, Block(r, p));
    if p in a.live { LiveIsNotHead(h, a, r, p); }
  }

  // ---------------------------------------------------------------- what an allocation and a release come to

  /** A new live block, large enough, and nothing else touched. */
  ghost predicate Allocated(h: Heap, a: Aux, h': Heap, a': Aux, p: nat, sz: nat) {
    && Inv(h', a') && p > 0 && p !in a.live && a'.live == a.live[p := sz]
    && sz <= Extent(h', a', p) && Untouched(h, a, h', a')
  }

  /** One live block less, and nothing in the others touched. */
  ghost predicate Released(h: Heap, a: Aux, h': Heap, a': Aux, p: nat) {
    Inv(h', a') && a'.live == a.live - {p} && Untouched(h, a, h', a')
  }

  lemma TakeAllocates(h: Heap, a: Aux, r: nat, sz: nat)
    requires CanTake(h, a, r, sz) && forall s :: s in h.refs && s != r ==> Busy(h, s)
    ensures Allocated(h, a, Take(h, r), TakeAux(a, r, sz), a.free[r][0], sz)
  {
    TakeKeepsInv(h, a, r, sz);
    TakeUntouched(h, a, r, sz);
    HeadBlock(h, a, r);
    assert Holds(Take(h, r), TakeAux(a, r, sz), Live(a.free[r][0]));
  }

  /** The state an allocation from a listed page leads to. */
  lemma TakeTo(h: Heap, a: Aux, r: nat, sz: nat) returns (h': Heap, a': Aux, p: nat)
    requires Inv(h, a) && r in h.refs && h.refs[r].nfree > 0
    requires h.refs[r].blktype < 8 && sz <= Size(h.refs[r].blktype)
    ensures Allocated(h, a, h', a', p, sz) && h' == Take(h, r)
    ensures r in a.free && a.free[r] != [] && a' == TakeAux(a, r, sz)
    ensures HeadReady(h, r) && p == HeadOf(h.refs[r]) && Extent(h', a', p) == Size(h.refs[r].blktype)
  {
    assert Holds(h, a, Descriptor(r));
    forall s | s in h.refs ensures Busy(h, s) { assert Holds(h, a, Used(s)); }
    TakeAllocates(h, a, r, sz);
    HeadBlock(h, a, r);
    h', a', p := Take(h, r), TakeAux(a, r, sz), a.free[r][0];
  }

  /** What the allocator asserts about the block it is about to take. */
  ghost predicate HeadReady(h: Heap, r: nat) {
    && r in h.refs && h.refs[r].nfree > 0 && h.refs[r].offset < 4096 && h.refs[r].page > 0
    && var next := Word(h.mem, HeadOf(h.refs[r]));
       (next == 0 <==> h.refs[r].nfree == 1) && (next != 0 ==> h.refs[r].page <= next < h.refs[r].page + 4096)
  }

  /** The state an allocation from a fresh page leads to. */
  lemma InstallTo(h: Heap, a: Aux, r: nat, page: nat, b: nat, sz: nat)
    returns (h': Heap, a': Aux, p: nat)
    requires Inv(h, a) && CanInstall(h, a, r, page, b) && sz <= Size(b)
    ensures Allocated(h, a, h', a', p, sz) && Extent(h', a', p) == Size(b)
    ensures var a1 := InstallAux(a, r, page, b); a1.free[r] != [] && a' == TakeAux(a1, r, sz)
    ensures var h1 := Install(h, r, page, b); HeadReady(h1, r) && h' == Take(h1, r) && p == HeadOf(h1.refs[r])
  {
    var h1, a1 := Install(h, r, page, b), InstallAux(a, r, page, b);
    InstallKeepsCore(h, a, r, page, b);
    assert Holds(h1, a1, Descriptor(r));
    forall s | s in h1.refs && s != r ensures Busy(h1, s) { assert Holds(h, a, Used(s)); }
    TakeAllocates(h1, a1, r, sz);
    HeadBlock(h1, a1, r);
    h', a', p := Take(h1, r), TakeAux(a1, r, sz), a1.free[r][0];
    InstallUntouched(h, a, r, page, b);
    UntouchedTrans(h, a, h1, a1, h', a');
  }

  lemma PutReleases(h: Heap, a: Aux, r: nat, p: nat)
    requires Inv(h, a) && CanPut(h, a, r, p) && h.refs[r].nfree + 1 < Blocks(h.refs[r].blktype)
    ensures Released(h, a, Put(h, r, p), PutAux(a, r, p), p)
  {
    PutKeepsInv(h, a, r, p);
    PutUntouched(h, a, r, p);
  }

  lemma DropReleases(h: Heap, a: Aux, r: nat, p: nat)
    requires Inv(h, a) && CanPut(h, a, r, p) && h.refs[r].nfree + 1 == Blocks(h.refs[r].blktype)
    ensures var h1, a1 := Put(h, r, p), PutAux(a, r, p);
            CanDrop(h1, a1, r) && Released(h, a, Drop(h1, r), DropAux(a1, r, h.refs[r].page), p)
  {
    var h1, a1 := Put(h, r, p), PutAux(a, r, p);
    PutKeepsCore(h, a, r, p);
    assert Holds(h1, a1, Descriptor(r));
    forall s | s in h1.refs && s != r ensures Busy(h1, s) { assert Holds(h, a, Used(s)); }
    DropKeepsInv(h1, a1, r);
    PutUntouched(h, a, r, p);
    DropUntouched(h1, a1, r);
    UntouchedTrans(h, a, h1, a1, Drop(h1, r), DropAux(a1, r, h.refs[r].page));
  }

  lemma PerPage(b: nat)
    requires b < 8
    ensures 4096 / Size(b) == Blocks(b)
  {}

  /** The state a release leads to. */
  lemma ReleaseTo(h: Heap, a: Aux, r: nat, p: nat) returns (h': Heap, a': Aux, page: Option<nat>)
    requires Inv(h, a) && CanPut(h, a, r, p)
    ensures |h.bySize| == 8 && Released(h, a, h', a', p)
    ensures page == if h.refs[r].nfree + 1 == Blocks(h.refs[r].blktype) then Some(h.refs[r].page) else None
    ensures h' == if page.Some? then Drop(Put(h, r, p), r) else Put(h, r, p)
    ensures a' == if page.Some? then DropAux(PutAux(a, r, p), r, page.value) else PutAux(a, r, p)
    ensures a'.owner.Keys == a.owner.Keys - (if page.Some? then {page.value} else {})
    ensures h.refs[r].nfree < Blocks(h.refs[r].blktype) && p != HeadOf(h.refs[r])
  {
    LiveBlock(h, a, r, p);
    if h.refs[r].nfree > 0 { HeadBlock(h, a, r); }
    if h.refs[r].nfree + 1 == Blocks(h.refs[r].blktype) {
      DropReleases(h, a, r, p);
      page := Some(h.refs[r].page);
      h', a' := Drop(Put(h, r, p), r), DropAux(PutAux(a, r, p), r, h.refs[r].page);
    } else {
      PutReleases(h, a, r, p);
      page := None;
      h', a' := Put(h, r, p), PutAux(a, r, p);
    }
  }

  // ---------------------------------------------------------------- steps

  /** The heap, its history, and the large blocks with their lengths in pages. */
  datatype Snapshot = Snapshot(h: Heap, a: Aux, big: map<nat, nat>)

  datatype Event =
    | TakeListed(r: nat, sz: nat)                      // a block of a page already in the pool
    | TakeFresh(r: nat, page: nat, b: nat, sz: nat)    // a block of a page new to the pool
    | PutBack(r: nat, p: nat)                          // a block freed, and its page too when wholly free
    | ObtainLarge(p: nat, sz: nat)
    | ReleaseLarge(p: nat)
    | Store(b: nat, x: nat, v: nat)                    // a client storing in its own block

  /** `x` lies in the live block that starts at `b`, small or large. */
  ghost predicate Covers(s: Snapshot, b: nat, x: nat) {
    InBlock(s.h, s.a, b, x) || (b in s.big && b <= x < b + s.big[b] * 4096)
  }

  /** When a step can happen, in terms of the descriptors and of what clients hold. */
  ghost predicate Enabled(s: Snapshot, e: Event) {
    match e
    case TakeListed(r, sz) =>
      r in s.h.refs && s.h.refs[r].nfree > 0 && s.h.refs[r].blktype < 8 && sz <= Size(s.h.refs[r].blktype)
    case TakeFresh(r, page, b, sz) =>
      r !in s.h.refs && b < 8 && sz <= Size(b) && FreshRun(s.a.owner.Keys, s.big, page, 1)
    case PutBack(r, p) => p in s.a.live && r in s.h.refs && s.h.refs[r].page == PageOf(p)
    case ObtainLarge(p, sz) => FreshRun(s.a.owner.Keys, s.big, p, PagesFor(sz))
    case ReleaseLarge(p) => p in s.big
    case Store(b, x, v) => Covers(s, b, x)
  }

  /** The lists and words the step works on are there. */
  ghost predicate Defined(s: Snapshot, e: Event) {
    match e
    case TakeListed(r, sz) => r in s.h.refs && s.h.refs[r].nfree > 0 && r in s.a.free && s.a.free[r] != []
    case TakeFresh(r, page, b, sz) => b < 8 && |s.h.bySize| == 8
    case PutBack(r, p) =>
      r in s.h.refs && s.h.refs[r].blktype < 8 && s.h.refs[r].page <= p && r in s.a.free && |s.h.bySize| == 8
    case _ => true
  }

  ghost function Apply(s: Snapshot, e: Event): Snapshot
    requires Defined(s, e)
  {
    match e
    case TakeListed(r, sz) => s.(h := Take(s.h, r), a := TakeAux(s.a, r, sz))
    case TakeFresh(r, page, b, sz) =>
      var h1, a1 := Install(s.h, r, page, b), InstallAux(s.a, r, page, b);
      assert |Stack(page, Size(b), Blocks(b))| > 0 by { StackMember(page, Size(b), Blocks(b), page); }
      s.(h := Take(h1, r), a := TakeAux(a1, r, sz))
    case PutBack(r, p) =>
      var h1, a1 := Put(s.h, r, p), PutAux(s.a, r, p);
      if s.h.refs[r].nfree + 1 == Blocks(s.h.refs[r].blktype)
      then s.(h := Drop(h1, r), a := DropAux(a1, r, s.h.refs[r].page)) else s.(h := h1, a := a1)
    case ObtainLarge(p, sz) => s.(big := s.big[p := PagesFor(sz)])
    case ReleaseLarge(p) => s.(big := s.big - {p})
    case Store(b, x, v) => s.(h := s.h.(mem := s.h.mem[x := v]))
  }

  // ---------------------------------------------------------------- what every step keeps

  ghost predicate Good(s: Snapshot) {
    Inv(s.h, s.a) && RunsApart(s.a.owner.Keys, s.big)
  }

  ghost predicate LiveAt(s: Snapshot, b: nat) {
    b in s.a.live || b in s.big
  }

  lemma EnabledDefined(s: Snapshot, e: Event)
    requires Good(s) && Enabled(s, e)
    ensures Defined(s, e)
  {
    if e.TakeListed? || e.PutBack? { assert Holds(s.h, s.a, Descriptor(e.r)); }
  }

  lemma TakeListedKeeps(s: Snapshot, r: nat, sz: nat)
    requires Good(s) && Enabled(s, TakeListed(r, sz)) && Defined(s, TakeListed(r, sz))
    ensures var t := Apply(s, TakeListed(r, sz)); Good(t) && Untouched(s.h, s.a, t.h, t.a)
  {
    var h, a, p := TakeTo(s.h, s.a, r, sz);
  }

  lemma TakeFreshKeeps(s: Snapshot, r: nat, page: nat, b: nat, sz: nat)
    requires Good(s) && Enabled(s, TakeFresh(r, page, b, sz)) && Defined(s, TakeFresh(r, page, b, sz))
    ensures var t := Apply(s, TakeFresh(r, page, b, sz)); Good(t) && Untouched(s.h, s.a, t.h, t.a)
  {
    var h, a, p := InstallTo(s.h, s.a, r, page, b, sz);
    RunsApartAdd(s.a.owner.Keys, page, s.big);
    assert a.owner.Keys == s.a.owner.Keys + {page};
  }

  lemma PutBackKeeps(s: Snapshot, r: nat, p: nat)
    requires Good(s) && Enabled(s, PutBack(r, p)) && Defined(s, PutBack(r, p))
    ensures var t := Apply(s, PutBack(r, p)); Good(t) && Untouched(s.h, s.a, t.h, t.a)
  {
    OnItsPage(s.h, s.a, r, p);
    var h, a, page := ReleaseTo(s.h, s.a, r, p);
    RunsApartSubset(s.a.owner.Keys, a.owner.Keys, s.big);
  }

  lemma StoreKeepsInv(s: Snapshot, b: nat, x: nat, v: nat)
    requires Good(s) && Covers(s, b, x)
    ensures Inv(s.h.(mem := s.h.mem[x := v]), s.a)
  {
    if InBlock(s.h, s.a, b, x) {
      ClientStoreKeepsInv(s.h, s.a, b, x, v);
    } else {
      forall page | page in s.a.owner ensures !(page <= x < page + 4096) { assert Apart(b, s.big[b], page, 1); }
      StoreOffHeap(s.h, s.a, x, v);
    }
    InvParts(s.h.(mem := s.h.mem[x := v]), s.a);
  }

  /** A store outside all heap pages cannot touch a free list. */
  lemma StoreOffHeap(h: Heap, a: Aux, x: nat, v: nat)
    requires Inv(h, a) && forall page :: page in a.owner ==> !(page <= x < page + 4096)
    ensures Inv(h.(mem := h.mem[x := v]), a)
  {
    forall s, y | s in h.refs && s in a.free && y in a.free[s] ensures y != x { assert Holds(h, a, Descriptor(s)); }
    SameLinksKeepInv(h, a, h.mem[x := v]);
  }

  /** Every step keeps the heap well formed and large and small blocks apart. */
  lemma StepKeepsGood(s: Snapshot, e: Event)
    requires Good(s) && Enabled(s, e)
    ensures Defined(s, e) && Good(Apply(s, e))
  {
    EnabledDefined(s, e);
    match e
    case TakeListed(r, sz) => TakeListedKeeps(s, r, sz);
    case TakeFresh(r, page, b, sz) => TakeFreshKeeps(s, r, page, b, sz);
    case PutBack(r, p) => PutBackKeeps(s, r, p);
    case ObtainLarge(p, sz) => RunsApartGrow(s.a.owner.Keys, s.big, p, PagesFor(sz));
    case ReleaseLarge(p) =>
    case Store(b, x, v) => StoreKeepsInv(s, b, x, v);
  }

  /** The step happened: it was possible and led from one snapshot to the other. */
  ghost predicate Did(s: Snapshot, e: Event, t: Snapshot) {
    Enabled(s, e) && Defined(s, e) && t == Apply(s, e)
  }

  /** What a release relies on, also of a block that is not live. */
  lemma RefIsDefined(s: Snapshot, r: nat, p: nat)
    requires Good(s) && r in s.h.refs && s.h.refs[r].page == PageOf(p)
    ensures Defined(s, PutBack(r, p)) && s.h.refs[r].nfree < Blocks(s.h.refs[r].blktype)
  {
    assert Holds(s.h, s.a, Descriptor(r)) && Holds(s.h, s.a, Used(r));
  }

  // ---------------------------------------------------------------- what steps leave alone

  /** The allocator never writes into a large block. */
  lemma LargeUntouched(s: Snapshot, e: Event, b: nat, x: nat)
    requires Good(s) && Enabled(s, e) && Defined(s, e) && !e.Store?
    requires b in s.big && b <= x < b + s.big[b] * 4096
    ensures Word(Apply(s, e).h.mem, x) == Word(s.h.mem, x)
  {
    match e
    case TakeFresh(r, page, k, sz) =>
      assert Apart(page, 1, b, s.big[b]);
      ThreadedElsewhere(s.h.mem, page, Size(k), Blocks(k), x);
    case PutBack(r, p) =>
      OnItsPage(s.h, s.a, r, p);
      assert Holds(s.h, s.a, Page(PageOf(p))) && Holds(s.h, s.a, Live(p));
      BlockInPage(PageOf(p), p, s.h.refs[r].blktype);
      assert Apart(b, s.big[b], PageOf(p), 1);
      PutElsewhere(s.h, r, p, x);
    case _ =>
  }

  lemma SmallUntouched(s: Snapshot, e: Event)
    requires Good(s) && Enabled(s, e) && Defined(s, e) && !e.Store?
    ensures var t := Apply(s, e); Untouched(s.h, s.a, t.h, t.a)
  {
    match e
    case TakeListed(r, sz) => TakeListedKeeps(s, r, sz);
    case TakeFresh(r, page, b, sz) => TakeFreshKeeps(s, r, page, b, sz);
    case PutBack(r, p) => PutBackKeeps(s, r, p);
    case _ =>
  }

  /** No block is both small and large. */
  lemma NotBoth(s: Snapshot, b: nat)
    requires Good(s) && b in s.a.live
    ensures b !in s.big
  {
    if b in s.big { FreeTarget(s.h, s.a, s.big, b); }
  }

  /** A word of a block that is live before and after a step holds what it held, or what the step stored there. */
  lemma StepKeepsWord(s: Snapshot, e: Event, b: nat, x: nat)
    requires Good(s) && Enabled(s, e) && Defined(s, e) && Covers(s, b, x) && LiveAt(Apply(s, e), b)
    ensures Covers(Apply(s, e), b, x)
    ensures Word(Apply(s, e).h.mem, x) == if e.Store? && e.x == x then e.v else Word(s.h.mem, x)
  {
    if !e.Store? {
      SmallUntouched(s, e);
      if b in s.a.live { NotBoth(s, b); }
      if b in s.big { LargeUntouched(s, e, b, x); }
    }
  }

  lemma {:induction false} FilledWord(mem: map<nat, nat>, p: nat, words: nat, j: nat)
    requires j < words
    ensures Word(Filled(mem, p, words), p + 4 * j) == 0xdeadbeef
  {
    if j < words - 1 { FilledWord(mem, p, words - 1, j); }
  }

  /** A freed block holds 0xdeadbeef behind its first word, which links it to the block that was first. */
  lemma FreedIsDead(s: Snapshot, r: nat, p: nat, j: nat)
    requires Good(s) && Enabled(s, PutBack(r, p)) && Defined(s, PutBack(r, p)) && j < Size(s.h.refs[r].blktype) / 4
    ensures Word(Apply(s, PutBack(r, p)).h.mem, p + 4 * j) == if j == 0 then HeadOf(s.h.refs[r]) else 0xdeadbeef
  {
    FilledWord(s.h.mem, p, Size(s.h.refs[r].blktype) / 4, j);
  }

  // ---------------------------------------------------------------- whole runs

  /** A run: each step can happen, and does what `Apply` says whenever that is defined. */
  ghost predicate IsRun(trace: seq<Snapshot>, events: seq<Event>) {
    && |trace| == |events| + 1
    && (forall i :: 0 <= i < |events| ==> FollowsAt(trace, events, i))
  }

  ghost predicate FollowsAt(trace: seq<Snapshot>, events: seq<Event>, i: nat)
    requires i < |events| && |trace| == |events| + 1
  {
    Follows(trace[i], events[i], trace[i + 1])
  }

  ghost predicate Follows(s: Snapshot, e: Event, t: Snapshot) {
    Enabled(s, e) && (Defined(s, e) ==> t == Apply(s, e))
  }

  /** The heap at start-up: no pages, no blocks. */
  ghost predicate Start(s: Snapshot) {
    s.h.refs == map[] && s.h.all == [] && s.h.bySize == [[], [], [], [], [], [], [], []]
    && s.a == Aux(map[], map[], map[]) && s.big == map[]
  }

  /** From start-up on, after every sequence of allocations, releases and client stores the heap is well formed. */
  lemma {:induction false} RunKeepsGood(trace: seq<Snapshot>, events: seq<Event>, k: nat)
    requires IsRun(trace, events) && Start(trace[0]) && k < |trace|
    ensures Good(trace[k])
  {
    if k > 0 {
      RunKeepsGood(trace, events, k - 1);
      assert FollowsAt(trace, events, k - 1);
      StepKeepsGood(trace[k - 1], events[k - 1]);
    }
  }

  /** In every such run any two live blocks, small or large, have no address in common. */
  lemma BlocksDisjoint(trace: seq<Snapshot>, events: seq<Event>, k: nat, b: nat, c: nat, x: nat)
    requires IsRun(trace, events) && Start(trace[0]) && k < |trace|
    requires b != c && Covers(trace[k], b, x)
    ensures !Covers(trace[k], c, x)
  {
    RunKeepsGood(trace, events, k);
    var s := trace[k];
    if b in s.a.live && c in s.a.live {
      if b < c { LiveBlocksDisjoint(s.h, s.a, b, c); } else { LiveBlocksDisjoint(s.h, s.a, c, b); }
    }
    if b in s.a.live && c in s.big { LargeBlocksDisjoint(s.h, s.a, s.big, b, c); }
    if b in s.big && c in s.a.live { LargeBlocksDisjoint(s.h, s.a, s.big, c, b); }
    if b in s.big && c in s.big { assert Apart(b, s.big[b], c, s.big[c]); }
  }

  /** A small block has at least the size asked for and starts at a multiple of its own block size within its page. */
  lemma BlocksFit(trace: seq<Snapshot>, events: seq<Event>, k: nat, b: nat)
    requires IsRun(trace, events) && Start(trace[0]) && k < |trace| && b in trace[k].a.live
    ensures var size := Extent(trace[k].h, trace[k].a, b);
            size >= 16 && trace[k].a.live[b] <= size && (b - PageOf(b)) % size == 0 && b + size <= PageOf(b) + 4096
  {
    RunKeepsGood(trace, events, k);
    var s := trace[k];
    assert Holds(s.h, s.a, Live(b));
    BlockInPage(PageOf(b), b, s.h.refs[s.a.owner[PageOf(b)]].blktype);
  }

  /** The last value clients stored at `x`, or `first` when they stored none. */
  function LastStored(events: seq<Event>, x: nat, first: nat): nat {
    if events == [] then first
    else
      var e := events[|events| - 1];
      if e.Store? && e.x == x then e.v else LastStored(events[..|events| - 1], x, first)
  }

  lemma LastStoredStep(events: seq<Event>, e: Event, x: nat, first: nat)
    ensures LastStored(events + [e], x, first) == if e.Store? && e.x == x then e.v else LastStored(events, x, first)
  {
    assert (events + [e])[..|events|] == events;
  }

  lemma NextWord(trace: seq<Snapshot>, events: seq<Event>, k: nat, b: nat, x: nat)
    requires IsRun(trace, events) && Start(trace[0]) && k < |events| && Covers(trace[k], b, x) && LiveAt(trace[k + 1], b)
    ensures Covers(trace[k + 1], b, x)
    ensures Word(trace[k + 1].h.mem, x) ==
              if events[k].Store? && events[k].x == x then events[k].v else Word(trace[k].h.mem, x)
  {
    RunKeepsGood(trace, events, k);
    assert FollowsAt(trace, events, k);
    EnabledDefined(trace[k], events[k]);
    StepKeepsWord(trace[k], events[k], b, x);
  }

  /** From state `i` on, a word of a block that stays live holds what its client last stored there. */
  lemma {:induction false} ContentsSurvive(trace: seq<Snapshot>, events: seq<Event>, i: nat, k: nat, b: nat, x: nat)
    requires IsRun(trace, events) && Start(trace[0]) && i <= k < |trace| && Covers(trace[i], b, x)
    requires forall j :: i <= j <= k ==> LiveAt(trace[j], b)
    ensures Covers(trace[k], b, x)
    ensures Word(trace[k].h.mem, x) == LastStored(events[i..k], x, Word(trace[i].h.mem, x))
    decreases k
  {
    if k > i {
      ContentsSurvive(trace, events, i, k - 1, b, x);
      NextWord(trace, events, k - 1, b, x);
      assert events[i..k] == events[i..k - 1] + [events[k - 1]];
      LastStoredStep(events[i..k - 1], events[k - 1], x, Word(trace[i].h.mem, x));
    }
  }

  // ---------------------------------------------------------------- freeing twice

  /** Following links from `from` leads through the blocks of `path` to `to`. */
  ghost predicate Leads(mem: map<nat, nat>, from: nat, path: seq<nat>, to: nat)
    decreases |path|
  {
    if path == [] then from == to else from == path[0] && from != 0 && Leads(mem, Word(mem, from), path[1..], to)
  }

  lemma {:induction false} ChainLeads(mem: map<nat, nat>, head: nat, fl: seq<nat>, j: nat)
    requires Chain(mem, head, fl) && j < |fl|
    ensures Leads(mem, head, fl[..j], fl[j])
    decreases j
  {
    if j > 0 {
      ChainLeads(mem, Word(mem, head), fl[1..], j - 1);
      assert fl[..j][1..] == fl[1..][..j - 1];
    }
  }

  lemma {:induction false} LeadsFrame(mem: map<nat, nat>, other: map<nat, nat>, from: nat, path: seq<nat>, to: nat)
    requires Leads(mem, from, path, to) && forall b :: b in path ==> Word(other, b) == Word(mem, b)
    ensures Leads(other, from, path, to)
    decreases |path|
  {
    if path != [] {
      assert path[0] in path;
      LeadsFrame(mem, other, Word(mem, from), path[1..], to);
    }
  }

  /** A list that leads somewhere continues from there, with that many blocks less. */
  lemma {:induction false} ChainAfter(mem: map<nat, nat>, from: nat, path: seq<nat>, to: nat, fl: seq<nat>)
    requires Leads(mem, from, path, to) && Chain(mem, from, fl)
    ensures |path| <= |fl| && Chain(mem, to, fl[|path|..])
    decreases |path|
  {
    if path != [] {
      ChainAfter(mem, Word(mem, from), path[1..], to, fl[1..]);
      assert fl[1..][|path| - 1..] == fl[|path|..];
    }
  }

  /** A block that leads back to itself is on no list that ends. */
  lemma {:induction false} LoopHasNoEnd(mem: map<nat, nat>, p: nat, path: seq<nat>, fl: seq<nat>)
    requires p != 0 && Leads(mem, Word(mem, p), path, p)
    ensures !Chain(mem, p, fl)
    decreases |fl|
  {
    if Chain(mem, p, fl) {
      ChainAfter(mem, Word(mem, p), path, p, fl[1..]);
      LoopHasNoEnd(mem, p, path, fl[1..][|path|..]);
    }
  }

  /** Freeing a block again when it is on the free list but not first turns the list into a loop. */
  lemma DoubleFreeLoops(s: Snapshot, r: nat, p: nat, fl: seq<nat>)
    requires Good(s) && r in s.h.refs && r in s.a.free && p in s.a.free[r] && p != HeadOf(s.h.refs[r])
    requires s.h.refs[r].blktype < 8 && s.h.refs[r].page <= p
    ensures var h := Put(s.h, r, p); HeadOf(h.refs[r]) == p && !Chain(h.mem, p, fl)
  {
    assert Holds(s.h, s.a, Descriptor(r));
    var o, list := s.h.refs[r], s.a.free[r];
    var j :| 0 <= j < |list| && list[j] == p;
    var mem := Put(s.h, r, p).mem;
    ChainLeads(s.h.mem, HeadOf(o), list, j);
    forall b | b in list[..j] ensures Word(mem, b) == Word(s.h.mem, b) {
      assert b in list && b != p;
      BlocksApart(o.page, o.blktype, p, o.page, o.blktype, b);
      PutElsewhere(s.h, r, p, b);
    }
    LeadsFrame(s.h.mem, mem, HeadOf(o), list[..j], p);
    LoopHasNoEnd(mem, p, list[..j], fl);
  }
}
