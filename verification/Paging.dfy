/**
 The demand-paging code itself: `coremap.c`, `swapfile.c`, `pt.c` and the page
 fault handler of `vm.c`, proved against the steps of PagingModel.
 */
module Paging {
  import opened Options
  import opened PagingModel
  import Bitmap

  class Vm {
    const coremap: array<CoreEntry>
    const slots: Bitmap.Bitmap
    var queue: seq<nat>
    var tables: Tables
    var ram: seq<Page>
    var disk: seq<Page>
    ghost var aux: Aux

    ghost predicate Ready()
      reads this, slots, slots.v, coremap
    {
      slots.nbits == SWAP_SLOTS && slots.Valid() && coremap as object != slots.v as object
    }

    ghost function St(): State
      requires Ready()
      reads this, slots, slots.v, coremap
    {
      State(coremap[..], queue, tables, ram, disk, slots.Marked())
    }

    ghost predicate Valid()
      reads this, slots, slots.v, coremap
    {
      Ready() && Inv(St(), aux)
    }

    /** `swapfile_init` and `coremap_init`: the first `boot` frames hold the kernel, the rest are free. */
    constructor (boot: nat, contents: seq<Page>)
      requires 1 <= boot
      ensures Valid() && fresh(coremap) && fresh(slots) && fresh(slots.v)
      ensures coremap.Length == |contents| && ram == contents && queue == [] && tables == map[]
      ensures aux.logical == map[] && aux.kernel == map[]
      ensures forall f :: 0 <= f < coremap.Length ==> (coremap[f].isFree <==> f >= boot)
    {
      slots := new Bitmap.Bitmap(SWAP_SLOTS);
      coremap := new CoreEntry[|contents|](i => CoreEntry(0, 0, 0, i >= boot, 0));
      queue, tables, ram := [], map[], contents;
      disk := seq(SWAP_SLOTS, i => seq(4096, j => 0));
      aux := Aux(map[], seq(|contents|, i => if i >= boot then Free else Boot), map[], map[]);
    }

    // -------------------------------------------------------------- replacement queue

    /** Pop until a frame that is still in use turns up. */
    method PopVictim() returns (victim: Option<nat>, ghost skipped: nat)
      requires forall i :: 0 <= i < |queue| ==> queue[i] < coremap.Length
      modifies this`queue
      ensures victim == None ==> queue == [] && forall i :: 0 <= i < |old(queue)| ==> coremap[old(queue)[i]].isFree
      ensures victim.Some? ==>
                && skipped < |old(queue)| && victim.value == old(queue)[skipped] && !coremap[victim.value].isFree
                && queue == old(queue)[skipped + 1..]
                && forall i :: 0 <= i < skipped ==> coremap[old(queue)[i]].isFree
    {
      skipped := 0;
      while queue != []
        invariant skipped <= |old(queue)| && queue == old(queue)[skipped..]
        invariant forall i :: 0 <= i < skipped ==> coremap[old(queue)[i]].isFree
        decreases |queue|
      {
        var f := queue[0];
        assert f == old(queue)[skipped];
        queue := queue[1..];
        if !coremap[f].isFree {
          return Some(f), skipped;
        }
        skipped := skipped + 1;
      }
      return None, skipped;
    }

    // -------------------------------------------------------------- swap file

    /** `swapfile_writepage`: store a frame in the lowest clear slot; fail when the swap file is full. */
    method SwapWritePage(f: nat) returns (index: Option<nat>)
      requires Ready() && f < |ram| && |disk| == SWAP_SLOTS
      modifies this`disk, slots.v
      ensures Ready()
      ensures index == None <==> LowestClear(old(slots.Marked()), 0) == SWAP_SLOTS
      ensures index.Some? ==>
                && index.value == LowestClear(old(slots.Marked()), 0) && index.value < SWAP_SLOTS
                && slots.Marked() == old(slots.Marked()) + {index.value}
                && disk == old(disk)[index.value := ram[f]]
    {
      ghost var before := slots.Marked();
      ghost var low := LowestClear(before, 0);
      index := slots.Alloc();
      if index.Some? {
        assert low <= index.value <= low;
        disk := disk[index.value := ram[f]];
      }
    }

    // -------------------------------------------------------------- coremap_replace

    /** What `coremap_replace` relies on about the frame at the head of the queue. */
    ghost predicate HeadOk(s: State) {
      && s.queue != [] && |s.ram| == |s.core| && |s.disk| == SWAP_SLOTS
      && (forall i :: 0 <= i < |s.queue| ==> s.queue[i] < |s.core|)
      && !s.core[s.queue[0]].isFree
      && HasInner(s.tables, KeyOf(s.core[s.queue[0]]))
      && EntryAt(s.tables, KeyOf(s.core[s.queue[0]])).valid
    }

    lemma HeadIsOk(s: State, a: Aux)
      requires Inv(s, a) && s.queue != []
      ensures HeadOk(s)
    {
      assert Holds(s, a, Frames);
      forall i | 0 <= i < |s.queue| ensures BackPointer(s, s.queue[i]) { assert s.queue[i] in s.queue; }
    }

    method EvictHead() returns (ok: bool)
      requires Ready() && HeadOk(St())
      modifies this`queue, this`tables, this`disk, coremap, slots.v
      ensures Ready()
      ensures ok <==> LowestClear(old(slots.Marked()), 0) < SWAP_SLOTS
      ensures ok ==> St() == Evict(old(St()), LowestClear(old(slots.Marked()), 0))
    {
      ghost var s, low := St(), LowestClear(slots.Marked(), 0);
      var victim, skipped := PopVictim();
      assert !coremap[s.queue[0]].isFree;
      assert victim == Some(s.queue[0]) && skipped == 0;
      var f := victim.value;
      var k := KeyOf(coremap[f]);
      var index := SwapWritePage(f);
      if index == None {
        return false;
      }
      tables := SetEntry(tables, k, PtEntry(index.value, EntryAt(tables, k).valid, true));
      coremap[f] := coremap[f].(isFree := true);
      assert coremap[..] == s.core[f := s.core[f].(isFree := true)];
      return true;
    }

    /** `coremap_replace`: evict the longest-resident page; panics exactly when there is none or swap is full. */
    method Replace() returns (ok: bool)
      requires Valid()
      modifies this, coremap, slots.v
      ensures ok <==> old(Evictable(St()))
      ensures ok ==> Valid() && St() == EvictNext(old(St())) && queue == old(queue)[1..]
      ensures ok ==> aux.logical == old(aux.logical) && aux.kernel == old(aux.kernel) && SameShape(tables, old(tables))
    {
      ghost var s, a := St(), aux;
      if queue == [] {
        return false;
      }
      HeadIsOk(s, a);
      ok := EvictHead();
      if ok {
        ghost var low := LowestClear(s.marked, 0);
        EvictDefined(s, a, low);
        EvictKeepsInv(s, a, low);
        EntryAfterSet(s.tables, KeyOf(s.core[s.queue[0]]), PtEntry(low, true, true));
        aux := EvictAux(s, a, low);
      }
    }

    // -------------------------------------------------------------- coremap_alloc

    method FindFree() returns (f: Option<nat>)
      ensures f == None <==> !HasFree(coremap[..])
      ensures f.Some? ==> LowestFree(coremap[..], f.value)
    {
      var i := 0;
      while i < coremap.Length
        invariant 0 <= i <= coremap.Length
        invariant forall g :: 0 <= g < i ==> !coremap[..][g].isFree
      {
        if coremap[i].isFree {
          assert coremap[..][i].isFree;
          return Some(i);
        }
        i := i + 1;
      }
      return None;
    }

    /** `coremap_alloc`: reserve the lowest free frame for page k, evicting once only if none is free. */
    method Alloc(k: Key) returns (paddr: Option<nat>, ghost s1: State, ghost f: nat)
      requires Valid()
      modifies this, coremap, slots.v
      ensures paddr == None <==> !old(HasFree(coremap[..])) && !old(Evictable(St()))
      ensures paddr.Some? ==>
                && Ready() && s1 == RoomFor(old(St())) && Inv(s1, aux)
                && aux.logical == old(aux.logical) && aux.kernel == old(aux.kernel) && SameShape(tables, old(tables))
                && LowestFree(s1.core, f) && paddr.value == f * 4096 && St() == Taken(s1, k, f)
    {
      ghost var s := St();
      s1, f := s, 0;
      while true
        invariant Valid() && aux.logical == old(aux.logical) && aux.kernel == old(aux.kernel)
        invariant SameShape(tables, old(tables))
        invariant s1 == St() && (s1 == s || (!HasFree(s.core) && Evictable(s) && s1 == EvictNext(s)))
        invariant s1 != s ==> HasFree(s1.core)
        decreases |queue|
      {
        var found := FindFree();
        if found.Some? {
          var i := found.value;
          TakeFrame(k, i);
          return Some(i * 4096), s1, i;
        }
        assert s1 == s;
        var ok := Replace();
        if !ok {
          return None, s1, f;
        }
        RoomHasFree(s, old(aux));
        s1 := St();
      }
    }

    method TakeFrame(k: Key, i: nat)
      requires Ready() && i < coremap.Length
      modifies this`queue, coremap
      ensures Ready() && St() == Taken(old(St()), k, i)
    {
      ghost var c := coremap[..];
      coremap[i] := CoreEntry(k.space, k.vpn * 4096, i * 4096, false, coremap[i].allocSize);
      queue := queue + [i];
      assert coremap[..] == c[i := CoreEntry(k.space, k.vpn * 4096, i * 4096, false, c[i].allocSize)];
    }

    // -------------------------------------------------------------- kernel allocations

    /** What the scan knows at frame i: no run ends before i, and `first` starts the free block reaching i. */
    ghost predicate Scanned(core: seq<CoreEntry>, i: nat, first: nat, n: nat) {
      && i <= |core|
      && (forall g :: 0 <= g && g + BlockFrames(n) <= i ==> !RunAt(core, g, BlockFrames(n)))
      && (i > 0 && core[i - 1].isFree ==>
            && first < i && (first > 0 ==> !core[first - 1].isFree)
            && forall j :: first <= j < i ==> core[j].isFree)
    }

    lemma ScanFinds(core: seq<CoreEntry>, i: nat, first: nat, n: nat)
      requires Scanned(core, i, first, n) && i < |core| && core[i].isFree && first <= i
      requires forall j :: first <= j < i ==> core[j].isFree
      requires (first > 0 ==> !core[first - 1].isFree) && i - first + 1 >= n
      ensures i - first + 1 == BlockFrames(n) && IsFirstRun(core, first, BlockFrames(n))
    {
      assert first + BlockFrames(n) <= i ==> RunAt(core, first, BlockFrames(n));
    }

    lemma ScanContinues(core: seq<CoreEntry>, i: nat, first: nat, n: nat)
      requires Scanned(core, i, first, n) && i < |core|
      requires core[i].isFree ==>
                 && first <= i && (first > 0 ==> !core[first - 1].isFree) && i - first + 1 < n
                 && forall j :: first <= j < i ==> core[j].isFree
      ensures Scanned(core, i + 1, first, n)
    {
      var m := BlockFrames(n);
      forall g | 0 <= g && g + m <= i + 1 ensures !RunAt(core, g, m) {}
    }

    /** The scan of `coremap_kalloc`; frame 0 is never free, so it never looks in front of the array. */
    method FindRun(n: nat) returns (found: Option<nat>)
      requires coremap.Length > 0 ==> !coremap[0].isFree
      ensures found == None <==> !HasRun(coremap[..], BlockFrames(n))
      ensures found.Some? ==> IsFirstRun(coremap[..], found.value, BlockFrames(n))
    {
      ghost var core := coremap[..];
      var i, first := 0, 0;
      while i < coremap.Length
        invariant coremap[..] == core && Scanned(core, i, first, n)
      {
        if coremap[i].isFree {
          var previousTaken := !coremap[i - 1].isFree;
          if i == 0 || previousTaken {
            first := i;
          }
          if i - first + 1 >= n {
            ScanFinds(core, i, first, n);
            return Some(first);
          }
        }
        ScanContinues(core, i, first, n);
        i := i + 1;
      }
      return None;
    }

    method MarkFrames(first: nat, n: nat)
      requires Ready() && first + BlockFrames(n) <= coremap.Length
      modifies coremap
      ensures Ready() && St() == old(St()).(core := MarkBlock(old(coremap[..]), first, n))
    {
      var i := 0;
      while i < BlockFrames(n)
        invariant 0 <= i <= BlockFrames(n)
        invariant Ready() && slots.Marked() == old(slots.Marked())
        invariant forall j :: 0 <= j < coremap.Length ==>
                    coremap[j] == if first <= j < first + i then MarkBlock(old(coremap[..]), first, n)[j] else old(coremap[j])
      {
        if i == 0 {
          coremap[first + i] := coremap[first + i].(allocSize := n);
        }
        coremap[first + i] := coremap[first + i].(paddr := (first + i) * 4096, isFree := false);
        i := i + 1;
      }
      assert coremap[..] == MarkBlock(old(coremap[..]), first, n);
    }

    lemma FrameZeroTaken(s: State, a: Aux)
      requires Inv(s, a)
      ensures |s.core| > 0 ==> !s.core[0].isFree
    {
      assert Holds(s, a, Frames);
    }

    method MarkRun(first: nat, n: nat)
      requires Valid() && RunAt(coremap[..], first, BlockFrames(n))
      modifies this`aux, coremap
      ensures Valid() && St() == old(St()).(core := MarkBlock(old(coremap[..]), first, n))
      ensures aux == MarkAux(old(aux), first, n) && first !in old(aux.kernel)
    {
      NotYetABlock(St(), aux, first, n);
      MarkKeepsInv(St(), aux, first, n);
      MarkFrames(first, n);
      aux := MarkAux(aux, first, n);
    }

    /** One pass of the loop in `coremap_kalloc`: search, and evict the oldest page if the search fails. */
    method SearchOrEvict(n: nat, ghost s: State, ghost e: nat) returns (found: Option<nat>, ok: bool)
      requires Valid() && St() == EvictTimes(s, e) && NoRoomBefore(s, n, e)
      modifies this, coremap, slots.v
      ensures found.Some? ==>
                && Valid() && St() == old(St()) && aux == old(aux) && IsFirstRun(coremap[..], found.value, BlockFrames(n))
      ensures found == None && !ok ==>
                !HasRun(EvictTimes(s, e).core, BlockFrames(n)) && !Evictable(EvictTimes(s, e))
      ensures found == None && ok ==>
                && Valid() && St() == EvictTimes(s, e + 1) && NoRoomBefore(s, n, e + 1)
                && |queue| + 1 == |old(queue)| && SameShape(tables, old(tables))
                && aux.logical == old(aux.logical) && aux.kernel == old(aux.kernel)
    {
      FrameZeroTaken(St(), aux);
      found := FindRun(n);
      ok := true;
      if found == None {
        ok := Replace();
        if ok { NoRoomStep(s, n, e); }
      }
    }

    /** Search, and evict the oldest page while the search fails. */
    method MakeRun(n: nat) returns (found: Option<nat>, ghost evictions: nat)
      requires Valid()
      modifies this, coremap, slots.v
      ensures evictions <= |old(queue)| && NoRoomBefore(old(St()), n, evictions)
      ensures found.Some? ==>
                && Valid() && St() == EvictTimes(old(St()), evictions)
                && IsFirstRun(coremap[..], found.value, BlockFrames(n))
                && aux.logical == old(aux.logical) && aux.kernel == old(aux.kernel) && SameShape(tables, old(tables))
      ensures found == None ==>
                var s' := EvictTimes(old(St()), evictions); !HasRun(s'.core, BlockFrames(n)) && !Evictable(s')
    {
      ghost var s := St();
      evictions := 0;
      while true
        invariant Valid() && aux.logical == old(aux.logical) && aux.kernel == old(aux.kernel)
        invariant SameShape(tables, old(tables))
        invariant evictions + |queue| == |s.queue| && St() == EvictTimes(s, evictions)
        invariant NoRoomBefore(s, n, evictions)
        decreases |queue|
      {
        var ok;
        found, ok := SearchOrEvict(n, s, evictions);
        if found.Some? || !ok {
          return;
        }
        evictions := evictions + 1;
      }
    }

    /** `coremap_kalloc`: the lowest run of frames, evicting the oldest pages one by one until there is one. */
    method KAlloc(n: nat) returns (paddr: Option<nat>, ghost evictions: nat, ghost first: nat)
      requires Valid()
      modifies this, coremap, slots.v
      ensures paddr == None <==> KAllocTo(old(St()), n) == None
      ensures paddr.Some? ==>
                && Valid() && paddr.value == first * 4096 && KAllocated(old(St()), n, evictions, first, St())
                && KAllocTo(old(St()), n) == Some((St(), first))
                && aux.logical == old(aux.logical) && aux.kernel == old(aux.kernel)[first := n]
                && first !in old(aux.kernel) && SameShape(tables, old(tables))
      ensures paddr == None ==>
                && evictions <= |old(queue)| && NoRoomBefore(old(St()), n, evictions)
                && !HasRun(EvictTimes(old(St()), evictions).core, BlockFrames(n))
                && !Evictable(EvictTimes(old(St()), evictions))
    {
      ghost var s, a := St(), aux;
      var found;
      found, evictions := MakeRun(n);
      first := 0;
      if found == None {
        KAllocFails(s, n, evictions);
        return None, evictions, first;
      }
      MarkRun(found.value, n);
      paddr, first := Some(found.value * 4096), found.value;
      KAllocatedIs(s, n, evictions, first, St());
    }

    method ReleaseFrames(first: nat)
      requires Ready() && first < coremap.Length && first + coremap[first].allocSize <= coremap.Length
      modifies coremap
      ensures Ready() && St() == old(St()).(core := ReleaseBlock(old(coremap[..]), first))
    {
      var nframes := coremap[first].allocSize;
      var i := 0;
      while i < nframes
        invariant 0 <= i <= nframes && Ready() && slots.Marked() == old(slots.Marked())
        invariant forall j :: 0 <= j < coremap.Length ==>
                    coremap[j] == if first <= j < first + i then old(coremap[j]).(isFree := true) else old(coremap[j])
      {
        coremap[first + i] := coremap[first + i].(isFree := true);
        i := i + 1;
      }
      assert coremap[..] == ReleaseBlock(old(coremap[..]), first);
    }

    /** `coremap_kfree` of the start of a live kernel block. */
    method KFree(paddr: nat)
      requires Valid() && paddr % 4096 == 0 && paddr / 4096 in aux.kernel
      modifies this`aux, coremap
      ensures Valid() && paddr / 4096 < coremap.Length
      ensures St() == old(St()).(core := ReleaseBlock(old(coremap[..]), paddr / 4096))
      ensures aux == ReleaseAux(old(aux), paddr / 4096)
    {
      var first := paddr / 4096;
      assert first + coremap[first].allocSize <= coremap.Length by { assert Holds(St(), aux, Blocks); }
      ReleaseKeepsInv(St(), aux, first);
      ReleaseFrames(first);
      aux := ReleaseAux(aux, first);
    }

    // -------------------------------------------------------------- page tables

    /** `inner_pt_create`: the 8-kilobyte inner table takes two kernel frames; fails exactly when those cannot be had. */
    method InnerPtCreate(k: Key) returns (ok: bool)
      requires Valid() && k.vpn < NUM_VPNS && k.space in tables && !HasInner(tables, k)
      modifies this, coremap, slots.v
      ensures ok <==> InnerTo(old(St()), k).Some?
      ensures ok ==> Valid() && InnerTo(old(St()), k) == Some(St())
      ensures ok ==> HasInner(tables, k) && aux.logical == old(aux.logical) && tables.Keys == old(tables.Keys)
      ensures ok ==> KeepsBlocks(old(aux.kernel), aux.kernel)
    {
      var paddr;
      ghost var e, first;
      paddr, e, first := KAlloc(2);
      ok := paddr.Some?;
      if ok {
        AddInnerKeepsInv(St(), aux, k);
        EntryAfterAddInner(tables, k);
        tables := AddInner(tables, k);
      }
    }

    // -------------------------------------------------------------- vm_fault

    /** The first-touch branch: map the frame just taken and fill it. */
    method MapNew(k: Key, f: nat, image: Page, ghost s1: State)
      requires Ready() && PlacePre(s1, aux, k, f, image, {}) && St() == Taken(s1, k, f) && !EntryAt(s1.tables, k).valid
      modifies this`tables, this`ram, this`aux
      ensures Valid() && EntryAt(tables, k) == PtEntry(f * 4096, true, false) && SameShape(tables, old(tables))
      ensures aux == PlaceAux(old(aux), k, f, image, {}) && St() == Place(s1, k, f, image, {})
    {
      PlaceKeepsInv(s1, aux, k, f, image, {});
      EntryAfterSet(tables, k, PtEntry(f * 4096, true, false));
      tables := SetEntry(tables, k, PtEntry(f * 4096, true, false));
      ram := ram[f := image];
      aux := PlaceAux(aux, k, f, image, {});
      assert s1.marked - {} == s1.marked;
      assert St() == Place(s1, k, f, image, {});
    }

    /** The swap-in branch: `swapfile_readpage` copies the slot into the frame and clears its bit. */
    method MapSwapped(k: Key, f: nat, ghost s1: State)
      requires Ready() && f < |s1.core| && St() == Taken(s1, k, f)
      requires |s1.disk| == SWAP_SLOTS && EntryAt(s1.tables, k).paddr < SWAP_SLOTS
      requires PlacePre(s1, aux, k, f, s1.disk[EntryAt(s1.tables, k).paddr], {EntryAt(s1.tables, k).paddr})
      requires EntryAt(s1.tables, k).valid
      modifies this`tables, this`ram, this`aux, slots.v
      ensures Valid() && EntryAt(tables, k) == PtEntry(f * 4096, true, false) && SameShape(tables, old(tables))
      ensures aux.logical == old(aux.logical) && aux.kernel == old(aux.kernel)
      ensures St() == Place(s1, k, f, s1.disk[EntryAt(s1.tables, k).paddr], {EntryAt(s1.tables, k).paddr})
    {
      var index := EntryAt(tables, k).paddr;
      ghost var page, a := disk[index], aux;
      assert index in s1.marked by { assert Holds(s1, a, Swaps); }
      PlaceKeepsInv(s1, aux, k, f, page, {index});
      EntryAfterSet(tables, k, PtEntry(f * 4096, true, false));
      ram := ram[f := disk[index]];
      slots.Unmark(index);
      tables := SetEntry(tables, k, PtEntry(f * 4096, true, false));
      aux := PlaceAux(a, k, f, page, {index});
      assert St() == Place(s1, k, f, page, {index});
    }

    /** Bring page k, known not to be resident, into a frame. */
    method PageIn(k: Key, image: Page) returns (paddr: Option<nat>)
      requires Valid() && HasInner(tables, k) && !Resident(St(), k)
      modifies this, coremap, slots.v
      ensures paddr == None <==> !old(HasFree(coremap[..])) && !old(Evictable(St()))
      ensures paddr.Some? ==> Valid() && PageInTo(old(St()), k, image) == Some(St())
      ensures paddr.Some? ==>
                && EntryAt(tables, k) == PtEntry(paddr.value, true, false)
                && aux.logical == Touched(old(aux.logical), k, image)
                && aux.kernel == old(aux.kernel) && SameShape(tables, old(tables))
    {
      ghost var s, a := St(), aux;
      var valid := EntryAt(tables, k).valid;
      ghost var s1: State, f: nat;
      paddr, s1, f := Alloc(k);
      if paddr == None {
        return;
      }
      RoomKeepsAbsent(s, a, k);
      PlaceReady(s1, aux, k, f, image);
      PageInIs(s, s1, k, f, image);
      var frame := paddr.value / 4096;
      if valid {
        MapSwapped(k, frame, s1);
      } else {
        MapNew(k, frame, image, s1);
      }
    }

    /** Where the page-in leads, once room has been made. */
    lemma PageInIs(s: State, s1: State, k: Key, f: nat, image: Page)
      requires (HasFree(s.core) || Evictable(s)) && s1 == RoomFor(s) && LowestFree(s1.core, f)
      requires |s1.ram| == |s1.core| && HasInner(s1.tables, k)
      ensures var e := EntryAt(s1.tables, k);
              && (!e.valid ==> PageInTo(s, k, image) == Some(Place(s1, k, f, image, {})))
              && (e.valid && e.paddr < |s1.disk| ==>
                    PageInTo(s, k, image) == Some(Place(s1, k, f, s1.disk[e.paddr], {e.paddr})))
    {
      assert FreeFrame(s1.core) == f;
    }

    /** After making room, the page that is to come in meets the conditions of either branch. */
    lemma PlaceReady(s: State, a: Aux, k: Key, f: nat, image: Page)
      requires Inv(s, a) && LowestFree(s.core, f) && HasInner(s.tables, k) && !Resident(s, k)
      ensures k in a.logical <==> EntryAt(s.tables, k).valid
      ensures !EntryAt(s.tables, k).valid ==> PlacePre(s, a, k, f, image, {})
      ensures var e := EntryAt(s.tables, k);
              e.valid ==> |s.disk| == SWAP_SLOTS && e.paddr < SWAP_SLOTS && PlacePre(s, a, k, f, s.disk[e.paddr], {e.paddr})
    {
      LogicalContent(s, a, k);
      assert EntryAt(s.tables, k).valid ==> EntryAt(s.tables, k).paddr < SWAP_SLOTS by { assert Holds(s, a, Swaps); }
    }

    /** The flat memory has a page exactly when its entry is valid, and then what the mapping leads to. */
    lemma LogicalContent(s: State, a: Aux, k: Key)
      requires Inv(s, a)
      ensures Content(s, k) == if k in a.logical then Some(a.logical[k]) else None
      ensures k in a.logical <==> EntryAt(s.tables, k).valid
    {
      assert Holds(s, a, Contents) && Holds(s, a, Residents) && Holds(s, a, Swaps);
    }

    /** `vm_fault`: the page ends up resident, holding its flat-memory content; bad faults change nothing. */
    method Fault(kind: FaultKind, space: Option<nat>, va: nat, seg: Segment) returns (r: FaultResult)
      requires Valid() && va < 0x1_0000_0000 && (space.Some? ==> space.value in tables)
      modifies this, coremap, slots.v
      ensures r == Killed <==> kind == ReadOnly
      ensures r == Invalid <==> kind == UnknownFault
      ensures r == BadAddress <==> (kind == Read || kind == Write) && (space == None || seg.NoSegment?)
      ensures r == Panicked <==>
                && (kind == Read || kind == Write) && space.Some? && !seg.NoSegment?
                && FaultTo(old(St()), Key(space.value, va / 4096), InitialPage(seg)) == None
      ensures r.Killed? || r.Invalid? || r.BadAddress? ==> Valid() && St() == old(St()) && aux == old(aux)
      ensures r.Mapped? ==>
                var k := Key(space.value, va / 4096);
                && Valid() && FaultTo(old(St()), k, InitialPage(seg)) == Some(St())
                && EntryAt(tables, k) == PtEntry(r.paddr, true, false)
                && aux.logical == Touched(old(aux.logical), k, InitialPage(seg))
                && tables.Keys == old(tables.Keys) && KeepsBlocks(old(aux.kernel), aux.kernel)
    {
      match kind
      case ReadOnly => r := Killed;
      case UnknownFault => r := Invalid;
      case Read | Write =>
        if space == None || seg.NoSegment? {
          r := BadAddress;
          return;
        }
        var k := Key(space.value, va / 4096);
        var ok := true;
        if !HasInner(tables, k) {
          ok := InnerPtCreate(k);
        }
        if !ok {
          r := Panicked;
          return;
        }
        r := EnsureResident(k, InitialPage(seg));
    }

    method EnsureResident(k: Key, image: Page) returns (r: FaultResult)
      requires Valid() && HasInner(tables, k)
      modifies this, coremap, slots.v
      ensures r.Mapped? || r.Panicked?
      ensures r.Panicked? <==> !old(Resident(St(), k)) && !old(HasFree(coremap[..])) && !old(Evictable(St()))
      ensures r.Mapped? ==> Valid() && ResidentTo(old(St()), k, image) == Some(St())
      ensures r.Mapped? ==>
                && EntryAt(tables, k) == PtEntry(r.paddr, true, false)
                && aux.logical == Touched(old(aux.logical), k, image)
                && tables.Keys == old(tables.Keys) && aux.kernel == old(aux.kernel)
    {
      var e := EntryAt(tables, k);
      if e.valid && !e.swapped {
        LogicalContent(St(), aux, k);
        r := Mapped(e.paddr);
        return;
      }
      var paddr := PageIn(k, image);
      r := if paddr == None then Panicked else Mapped(paddr.value);
    }

    // -------------------------------------------------------------- runs

    /** The machine presents exactly the flat memory m. */
    ghost predicate Presents(m: Flat)
      reads this, slots, slots.v, coremap
    {
      Valid() && tables.Keys == m.spaces && aux.logical == m.pages
    }

    /** Fault a page in, as the hardware does on a TLB miss. */
    method TouchPage(k: Key, va: nat, seg: Segment, kind: FaultKind) returns (f: Option<nat>)
      requires Valid() && va < 0x1_0000_0000 && k == Key(k.space, va / 4096) && k.space in tables
      requires (kind == Read || kind == Write) && !seg.NoSegment?
      modifies this, coremap, slots.v
      ensures f == None <==> FaultTo(old(St()), k, InitialPage(seg)) == None
      ensures f.Some? ==> Valid() && FaultTo(old(St()), k, InitialPage(seg)) == Some(St())
      ensures f.Some? ==>
                && EntryAt(tables, k).valid && !EntryAt(tables, k).swapped
                && EntryAt(tables, k).paddr / 4096 == f.value
                && aux.logical == Touched(old(aux.logical), k, InitialPage(seg))
                && tables.Keys == old(tables.Keys) && KeepsBlocks(old(aux.kernel), aux.kernel)
    {
      var r := Fault(kind, Some(k.space), va, seg);
      f := if r.Mapped? then Some(r.paddr / 4096) else None;
    }

    /** Access memory through the page table, faulting first. */
    method Access(k: Key, va: nat, seg: Segment, access: PagingModel.Access) returns (out: Option<bv8>, ok: bool)
      requires Valid() && va < 0x1_0000_0000 && k == Key(k.space, va / 4096) && k.space in tables && !seg.NoSegment?
      modifies this, coremap, slots.v
      ensures ok <==> FaultTo(old(St()), k, InitialPage(seg)).Some?
      ensures ok ==> Valid() && St() == AccessTo(FaultTo(old(St()), k, InitialPage(seg)).value, k, va % 4096, access)
      ensures ok ==> tables.Keys == old(tables.Keys) && KeepsBlocks(old(aux.kernel), aux.kernel)
      ensures ok ==>
                var pages := Touched(old(aux.logical), k, InitialPage(seg));
                if access.Load? then aux.logical == pages && out == Some(pages[k][va % 4096])
                else aux.logical == pages[k := pages[k][va % 4096 := access.byte]] && out == None
    {
      var f := TouchPage(k, va, seg, if access.Load? then Read else Write);
      out, ok := None, f.Some?;
      if ok {
        out := MemoryAccess(k, f.value, va % 4096, access);
      }
    }

    /** The access itself, once the page is resident. */
    method MemoryAccess(k: Key, f: nat, offset: nat, access: PagingModel.Access) returns (out: Option<bv8>)
      requires Valid() && EntryAt(tables, k).valid && !EntryAt(tables, k).swapped && EntryAt(tables, k).paddr / 4096 == f
      requires offset < 4096
      modifies this`ram, this`aux
      ensures Valid() && k in old(aux.logical) && aux.kernel == old(aux.kernel)
      ensures St() == AccessTo(old(St()), k, offset, access)
      ensures access.Load? ==> aux == old(aux) && out == Some(aux.logical[k][offset])
      ensures access.Store? ==>
                out == None && aux.logical == old(aux.logical)[k := old(aux.logical)[k][offset := access.byte]]
    {
      LogicalContent(St(), aux, k);
      assert f < |ram| by { StoreKeepsInv(St(), aux, k, aux.logical[k]); }
      if access.Load? {
        return Some(ram[f][offset]);
      }
      var page: Page := ram[f][offset := access.byte];
      StoreKeepsInv(St(), aux, k, page);
      ram := ram[f := page];
      aux := aux.(logical := aux.logical[k := page]);
      return None;
    }

    /** The live kernel blocks a caller knows of are blocks of the coremap. */
    ghost predicate Owns(live: map<nat, nat>)
      reads this
    {
      KeepsBlocks(live, aux.kernel)
    }

    method NewSpace(space: nat, ghost m: Flat)
      requires Presents(m)
      modifies this`tables
      ensures Presents(m.(spaces := m.spaces + {space}))
      ensures St() ==
                old(St()).(tables := if space in old(tables) then old(tables) else old(tables)[space := EmptyTable()])
    {
      if space !in tables {
        NewSpaceKeepsInv(St(), aux, space);
        tables := tables[space := EmptyTable()];
      }
    }

    /** The kernel writes one of its own frames: no user page notices. */
    method KernelStore(first: nat, index: nat, page: Page, ghost m: Flat)
      requires Presents(m) && first in aux.kernel && index < aux.kernel[first]
      modifies this`ram
      ensures Presents(m) && first + index < |old(ram)| && St() == old(St()).(ram := old(ram)[first + index := page])
    {
      ghost var s := St();
      BlockFrameIsKernel(s, aux, first, index);
      KernelWriteKeepsInv(s, aux, first + index, page);
      ram := ram[first + index := page];
      assert St() == s.(ram := s.ram[first + index := page]);
    }

    method KernelObtain(n: nat, live: map<nat, nat>, ghost m: Flat) returns (ok: bool, live': map<nat, nat>)
      requires Presents(m) && Owns(live)
      modifies this, coremap, slots.v
      ensures ok <==> KAllocTo(old(St()), n).Some?
      ensures ok ==> Presents(m) && Owns(live')
      ensures ok ==> KAllocTo(old(St()), n).value.0 == St() && live' == live[KAllocTo(old(St()), n).value.1 := n]
    {
      var paddr;
      ghost var e, first;
      ghost var s0, a0 := St(), aux;
      paddr, e, first := KAlloc(n);
      ok, live' := paddr.Some?, live;
      if ok {
        live' := live[paddr.value / 4096 := n];
        assert paddr.value / 4096 == first;
        assert KAllocTo(s0, n).value == (St(), first);
        KeepsMore(live, a0.kernel, first, n);
      }
    }

    method KernelRelease(first: nat, live: map<nat, nat>, ghost m: Flat) returns (live': map<nat, nat>)
      requires Presents(m) && Owns(live) && first in live
      modifies this`aux, coremap
      ensures Presents(m) && Owns(live') && live' == live - {first}
      ensures first < |old(coremap[..])| && St() == old(St()).(core := ReleaseBlock(old(coremap[..]), first))
    {
      KFree(first * 4096);
      live' := live - {first};
    }

    /** A user access on the run's flat memory. */
    method PerformTouch(op: Op, live: map<nat, nat>, ghost m: Flat) returns (out: Option<bv8>, ok: bool)
      requires Presents(m) && Owns(live) && op.Touch?
      modifies this, coremap, slots.v
      ensures ok <==> Exec(Machine(old(St()), live), op).Some?
      ensures ok ==> Presents(FlatStep(m, op).0) && out == FlatStep(m, op).1 && Owns(live)
      ensures ok ==> Exec(Machine(old(St()), live), op) == Some(Machine(St(), live))
    {
      out, ok := None, true;
      if op.space in tables && !op.seg.NoSegment? && op.va < 0x1_0000_0000 {
        out, ok := Access(Key(op.space, op.va / 4096), op.va, op.seg, op.access);
      }
    }

    /** Each operation does to this machine what `Exec` says, fails exactly when `Exec` fails, and shows flat memory. */
    method Perform(op: Op, live: map<nat, nat>, ghost m: Flat)
      returns (out: Option<bv8>, ok: bool, live': map<nat, nat>)
      requires Presents(m) && Owns(live)
      modifies this, coremap, slots.v
      ensures ok <==> Exec(Machine(old(St()), live), op).Some?
      ensures ok ==> Presents(FlatStep(m, op).0) && out == FlatStep(m, op).1 && Owns(live')
      ensures ok ==> Exec(Machine(old(St()), live), op) == Some(Machine(St(), live'))
    {
      out, ok, live' := None, true, live;
      match op
      case NewSpace(space) =>
        NewSpace(space, m);
      case Touch(space, va, seg, access) =>
        out, ok := PerformTouch(op, live, m);
      case KernelAlloc(n) =>
        ok, live' := KernelObtain(n, live, m);
      case KernelFree(paddr) =>
        if paddr % 4096 == 0 && paddr / 4096 in live {
          live' := KernelRelease(paddr / 4096, live, m);
        }
      case KernelWrite(first, index, page) =>
        if first in live && index < live[first] {
          KernelStore(first, index, page, m);
        }
    }

    /**
     Any sequence of operations gives the outputs one flat memory would give. All
     of it is done exactly when no operation runs out of memory; otherwise the run
     stops at the first one that does.
     */
    method Run(ops: seq<Op>) returns (outs: seq<Option<bv8>>, done: nat)
      requires Presents(Flat({}, map[]))
      modifies this, coremap, slots.v
      ensures done <= |ops| && outs == FlatRun(Flat({}, map[]), ops[..done]).1
      ensures done == |ops| <==> ExecRun(Machine(old(St()), map[]), ops).Some?
      ensures done == |ops| ==>
                && Presents(FlatRun(Flat({}, map[]), ops).0)
                && St() == ExecRun(Machine(old(St()), map[]), ops).value.s
      ensures done < |ops| ==>
                var reached := ExecRun(Machine(old(St()), map[]), ops[..done]);
                reached.Some? && Exec(reached.value, ops[done]) == None
    {
      ghost var m := Flat({}, map[]);
      ghost var start := Machine(St(), map[]);
      var live: map<nat, nat> := map[];
      outs, done := [], 0;
      while done < |ops|
        invariant done <= |ops| && Owns(live)
        invariant (m, outs) == FlatRun(Flat({}, map[]), ops[..done])
        invariant Presents(m) && ExecRun(start, ops[..done]) == Some(Machine(St(), live))
      {
        var out, ok;
        assert ops[..done + 1][..done] == ops[..done];
        out, ok, live := Perform(ops[done], live, m);
        if !ok {
          ExecRunPrefix(start, ops, done + 1);
          return;
        }
        m, outs, done := FlatStep(m, ops[done]).0, outs + [out], done + 1;
      }
      assert ops[..done] == ops;
    }
  }

  datatype FaultKind = ReadOnly | Read | Write | UnknownFault

  /** The outcome of a fault; `Invalid` and `BadAddress` are the error returns EINVAL and EFAULT. */
  datatype FaultResult = Mapped(paddr: nat) | Invalid | BadAddress | Killed | Panicked
}
