/**
 The data of the demand-paging system as one value: frame table, replacement
 queue, two-level page tables, RAM, swap file and swap-slot bitmap; the
 invariant that ties them to one flat memory per process; and the steps that
 keep it.
 */
module PagingModel {
  import opened Options
  import opened Sequences

  const SWAP_SLOTS: int := 2304
  const NUM_VPNS: int := 0x10_0000

  type Page = p: seq<bv8> | |p| == 4096 witness seq(4096, i => 0)

  /** A page of an address space: which space, and the virtual page number. */
  datatype Key = Key(space: nat, vpn: nat)

  /** `struct coremap_entry`. */
  datatype CoreEntry = CoreEntry(space: nat, vaddr: nat, paddr: nat, isFree: bool, allocSize: nat)

  /** `struct pt_entry`; paddr holds the swap slot of a swapped page. */
  datatype PtEntry = PtEntry(paddr: nat, valid: bool, swapped: bool)

  const ZERO_ENTRY := PtEntry(0, false, false)

  type Entries = s: seq<PtEntry> | |s| == 1024 witness seq(1024, i => ZERO_ENTRY)
  datatype Inner = NoInner | Inner(entries: Entries)
  type Table = t: seq<Inner> | |t| == 1024 witness seq(1024, i => NoInner)
  type Tables = map<nat, Table>

  function KeyOf(e: CoreEntry): Key {
    Key(e.space, e.vaddr / 4096)
  }

  // ---------------------------------------------------------------- two-level page tables

  predicate HasInner(tables: Tables, k: Key) {
    k.vpn < NUM_VPNS && k.space in tables && tables[k.space][k.vpn / 1024].Inner?
  }

  function EntryAt(tables: Tables, k: Key): PtEntry {
    if HasInner(tables, k) then tables[k.space][k.vpn / 1024].entries[k.vpn % 1024] else ZERO_ENTRY
  }

  function SetEntry(tables: Tables, k: Key, e: PtEntry): (r: Tables)
    requires HasInner(tables, k)
  {
    var t := tables[k.space];
    var inner: Entries := t[k.vpn / 1024].entries[k.vpn % 1024 := e];
    tables[k.space := t[k.vpn / 1024 := Inner(inner)]]
  }

  /** Two-level indexing is injective: storing one page's entry changes no other page's. */
  lemma EntryAfterSet(tables: Tables, k: Key, e: PtEntry)
    requires HasInner(tables, k)
    ensures forall j :: EntryAt(SetEntry(tables, k, e), j) == if j == k then e else EntryAt(tables, j)
    ensures SameShape(SetEntry(tables, k, e), tables)
  {
    forall j ensures EntryAt(SetEntry(tables, k, e), j) == if j == k then e else EntryAt(tables, j) {
      if j.vpn / 1024 == k.vpn / 1024 && j.vpn % 1024 == k.vpn % 1024 {
        assert j.vpn == k.vpn;
      }
    }
  }

  /** The same address spaces, with the same inner tables in place. */
  ghost predicate SameShape(t: Tables, u: Tables) {
    t.Keys == u.Keys && forall k :: HasInner(t, k) == HasInner(u, k)
  }

  function AddInner(tables: Tables, k: Key): (r: Tables)
    requires k.vpn < NUM_VPNS && k.space in tables
  {
    tables[k.space := tables[k.space][k.vpn / 1024 := Inner(seq(1024, i => ZERO_ENTRY))]]
  }

  /** A fresh inner table makes no page valid and invalidates none. */
  lemma EntryAfterAddInner(tables: Tables, k: Key)
    requires k.vpn < NUM_VPNS && k.space in tables && !HasInner(tables, k)
    ensures forall j :: EntryAt(AddInner(tables, k), j) == EntryAt(tables, j)
    ensures HasInner(AddInner(tables, k), k)
  {}

  // ---------------------------------------------------------------- state and invariant

  datatype State = State(core: seq<CoreEntry>, queue: seq<nat>, tables: Tables,
                         ram: seq<Page>, disk: seq<Page>, marked: set<nat>)

  /** What a frame is used for. A frame is leaked when a zero-page kernel block is released. */
  datatype FrameUse = Free | Boot | User | Kernel(first: nat) | Leaked

  /** History: which page owns each swap slot, frame uses, live kernel blocks, and the flat memory. */
  datatype Aux = Aux(owner: map<nat, Key>, uses: seq<FrameUse>, kernel: map<nat, nat>, logical: map<Key, Page>)

  /** The page a frame in the replacement queue holds is resident in exactly that frame. */
  ghost predicate BackPointer(s: State, f: nat) {
    && f < |s.core|
    && s.core[f].paddr == f * 4096
    && EntryAt(s.tables, KeyOf(s.core[f])) == PtEntry(f * 4096, true, false)
  }

  ghost predicate FramesOk(s: State, a: Aux) {
    && |s.ram| == |s.core| == |a.uses| && |s.disk| == SWAP_SLOTS
    && Distinct(s.queue)
    && (|a.uses| > 0 ==> a.uses[0] == Boot)
    && (forall f :: f in s.queue ==> BackPointer(s, f))
    && (forall f :: 0 <= f < |s.core| ==> (s.core[f].isFree <==> a.uses[f] == Free))
    && (forall f :: 0 <= f < |s.core| ==> (f in s.queue <==> a.uses[f] == User))
  }

  ghost predicate ResidentOk(s: State) {
    forall k :: var e := EntryAt(s.tables, k);
                e.valid && !e.swapped ==>
                  e.paddr / 4096 in s.queue && e.paddr / 4096 < |s.core| && KeyOf(s.core[e.paddr / 4096]) == k
  }

  ghost predicate SwappedOk(s: State, a: Aux) {
    && s.marked == a.owner.Keys
    && (forall i :: i in a.owner ==> i < SWAP_SLOTS && EntryAt(s.tables, a.owner[i]) == PtEntry(i, true, true))
    && (forall k :: var e := EntryAt(s.tables, k);
                    e.valid && e.swapped ==> e.paddr in a.owner && a.owner[e.paddr] == k)
  }

  /** Frames a kernel block of n requested pages occupies: the scan stops at one frame for n == 0. */
  function BlockFrames(n: nat): nat {
    if n == 0 then 1 else n
  }

  ghost predicate KernelOk(s: State, a: Aux) {
    && |a.uses| == |s.core|
    && (forall b :: b in a.kernel ==>
          b + BlockFrames(a.kernel[b]) <= |s.core| && s.core[b].allocSize == a.kernel[b])
    && (forall b, f :: b in a.kernel && b <= f < b + BlockFrames(a.kernel[b]) && f < |s.core| ==> a.uses[f] == Kernel(b))
    && (forall f :: 0 <= f < |s.core| && a.uses[f].Kernel? ==>
          var b := a.uses[f].first; b in a.kernel && b <= f < b + BlockFrames(a.kernel[b]))
  }

  /** What the page's mapping leads to: its frame, or its swap slot. */
  function Content(s: State, k: Key): Option<Page> {
    var e := EntryAt(s.tables, k);
    if !e.valid then None
    else if e.swapped then if e.paddr < |s.disk| then Some(s.disk[e.paddr]) else None
    else if e.paddr / 4096 < |s.ram| then Some(s.ram[e.paddr / 4096]) else None
  }

  /** Reading through the mapping is reading the flat memory. */
  ghost predicate LogicalOk(s: State, a: Aux) {
    forall k :: Content(s, k) == if k in a.logical then Some(a.logical[k]) else None
  }

  /** What the invariant is about, one thing at a time. */
  datatype Aspect = Frames | Residents | Swaps | Blocks | Contents

  ghost predicate Holds(s: State, a: Aux, p: Aspect) {
    match p
    case Frames => FramesOk(s, a)
    case Residents => ResidentOk(s)
    case Swaps => SwappedOk(s, a)
    case Blocks => KernelOk(s, a)
    case Contents => LogicalOk(s, a)
  }

  ghost predicate Sized(s: State, a: Aux) {
    |s.ram| == |s.core| == |a.uses| && |s.disk| == SWAP_SLOTS
  }

  ghost predicate Inv(s: State, a: Aux) {
    Sized(s, a) && forall p: Aspect :: Holds(s, a, p)
  }

  lemma AllAspects(s: State, a: Aux)
    ensures Inv(s, a) <==> FramesOk(s, a) && ResidentOk(s) && SwappedOk(s, a) && KernelOk(s, a) && LogicalOk(s, a)
  {
    if Inv(s, a) {
      assert Holds(s, a, Frames) && Holds(s, a, Residents) && Holds(s, a, Swaps) && Holds(s, a, Blocks) && Holds(s, a, Contents);
    }
  }

  /** Two valid pages never share a frame or a swap slot. */
  lemma NoSharing(s: State, a: Aux, j: Key, k: Key)
    requires Inv(s, a) && j != k && EntryAt(s.tables, j).valid && EntryAt(s.tables, k).valid
    requires EntryAt(s.tables, j).swapped == EntryAt(s.tables, k).swapped
    ensures EntryAt(s.tables, j).paddr != EntryAt(s.tables, k).paddr
  {
    assert Holds(s, a, Residents) && Holds(s, a, Swaps);
    if EntryAt(s.tables, j).swapped {
    } else {
      assert KeyOf(s.core[EntryAt(s.tables, j).paddr / 4096]) == j;
      assert KeyOf(s.core[EntryAt(s.tables, k).paddr / 4096]) == k;
    }
  }

  // ---------------------------------------------------------------- eviction

  /** Move the longest-resident page to a clear swap slot and free its frame. */
  function Evict(s: State, slot: nat): (r: State)
    requires s.queue != [] && s.queue[0] < |s.core| == |s.ram| && slot < |s.disk|
    requires HasInner(s.tables, KeyOf(s.core[s.queue[0]]))
  {
    var f := s.queue[0];
    State(s.core[f := s.core[f].(isFree := true)], s.queue[1..],
          SetEntry(s.tables, KeyOf(s.core[f]), PtEntry(slot, true, true)),
          s.ram, s.disk[slot := s.ram[f]], s.marked + {slot})
  }

  ghost function EvictAux(s: State, a: Aux, slot: nat): Aux
    requires s.queue != [] && s.queue[0] < |s.core| == |a.uses|
  {
    var f := s.queue[0];
    a.(owner := a.owner[slot := KeyOf(s.core[f])], uses := a.uses[f := Free])
  }

  predicate CanEvict(s: State, slot: nat) {
    s.queue != [] && slot < SWAP_SLOTS && slot !in s.marked
  }

  ghost predicate EvictPre(s: State, a: Aux, slot: nat) {
    && Inv(s, a) && CanEvict(s, slot)
    && s.queue[0] < |s.core| == |s.ram| && slot < |s.disk| && HasInner(s.tables, KeyOf(s.core[s.queue[0]]))
  }

  lemma EvictDefined(s: State, a: Aux, slot: nat)
    requires Inv(s, a) && CanEvict(s, slot)
    ensures EvictPre(s, a, slot)
  {
    assert Holds(s, a, Frames);
    assert s.queue[0] in s.queue;
  }

  lemma EvictKeepsFrames(s: State, a: Aux, slot: nat)
    requires EvictPre(s, a, slot)
    ensures FramesOk(Evict(s, slot), EvictAux(s, a, slot)) && KernelOk(Evict(s, slot), EvictAux(s, a, slot))
  {
    assert Holds(s, a, Frames) && Holds(s, a, Blocks);
    var f, s' := s.queue[0], Evict(s, slot);
    EntryAfterSet(s.tables, KeyOf(s.core[f]), PtEntry(slot, true, true));
    assert s.queue == [f] + s'.queue;
    forall g | g in s'.queue ensures g != f && BackPointer(s', g) {
      assert BackPointer(s, g) && BackPointer(s, f);
    }
  }

  lemma EvictKeepsMappings(s: State, a: Aux, slot: nat)
    requires EvictPre(s, a, slot)
    ensures ResidentOk(Evict(s, slot)) && SwappedOk(Evict(s, slot), EvictAux(s, a, slot))
  {
    assert Holds(s, a, Frames) && Holds(s, a, Residents) && Holds(s, a, Swaps);
    var f, s' := s.queue[0], Evict(s, slot);
    EntryAfterSet(s.tables, KeyOf(s.core[f]), PtEntry(slot, true, true));
    assert s.queue == [f] + s'.queue;
    assert BackPointer(s, f);
  }

  lemma EvictKeepsContent(s: State, a: Aux, slot: nat)
    requires EvictPre(s, a, slot)
    ensures LogicalOk(Evict(s, slot), EvictAux(s, a, slot))
  {
    assert Holds(s, a, Frames) && Holds(s, a, Swaps) && Holds(s, a, Contents);
    var f, s' := s.queue[0], Evict(s, slot);
    EntryAfterSet(s.tables, KeyOf(s.core[f]), PtEntry(slot, true, true));
    assert BackPointer(s, f);
    forall k ensures Content(s', k) == Content(s, k) {
      var e := EntryAt(s.tables, k);
      if e.valid && e.swapped { assert e.paddr in s.marked; }
    }
  }

  /** Eviction keeps the invariant, and the flat memory is untouched. */
  lemma EvictKeepsInv(s: State, a: Aux, slot: nat)
    requires EvictPre(s, a, slot)
    ensures Inv(Evict(s, slot), EvictAux(s, a, slot))
    ensures EvictAux(s, a, slot).logical == a.logical
  {
    EvictKeepsFrames(s, a, slot);
    EvictKeepsMappings(s, a, slot);
    EvictKeepsContent(s, a, slot);
    AllAspects(Evict(s, slot), EvictAux(s, a, slot));
  }

  // ---------------------------------------------------------------- bringing a page in

  /** Give page k the free frame f holding `page`, and release the swap slots in `freed`. */
  function Place(s: State, k: Key, f: nat, page: Page, freed: set<nat>): (r: State)
    requires f < |s.core| == |s.ram| && HasInner(s.tables, k)
  {
    State(s.core[f := CoreEntry(k.space, k.vpn * 4096, f * 4096, false, s.core[f].allocSize)], s.queue + [f],
          SetEntry(s.tables, k, PtEntry(f * 4096, true, false)),
          s.ram[f := page], s.disk, s.marked - freed)
  }

  ghost function PlaceAux(a: Aux, k: Key, f: nat, page: Page, freed: set<nat>): Aux
    requires f < |a.uses|
  {
    a.(uses := a.uses[f := User], owner := a.owner - freed, logical := a.logical[k := page])
  }

  /** Either the page is new, or it comes back from its swap slot. */
  ghost predicate PlacePre(s: State, a: Aux, k: Key, f: nat, page: Page, freed: set<nat>) {
    && Inv(s, a) && f < |s.core| && s.core[f].isFree && HasInner(s.tables, k)
    && var e := EntryAt(s.tables, k);
       if !e.valid then freed == {}
       else e.swapped && freed == {e.paddr} && e.paddr < |s.disk| && page == s.disk[e.paddr]
  }

  lemma PlaceKeepsFrames(s: State, a: Aux, k: Key, f: nat, page: Page, freed: set<nat>)
    requires PlacePre(s, a, k, f, page, freed)
    ensures FramesOk(Place(s, k, f, page, freed), PlaceAux(a, k, f, page, freed))
    ensures KernelOk(Place(s, k, f, page, freed), PlaceAux(a, k, f, page, freed))
  {
    assert Holds(s, a, Frames) && Holds(s, a, Blocks);
    var s' := Place(s, k, f, page, freed);
    EntryAfterSet(s.tables, k, PtEntry(f * 4096, true, false));
    assert f !in s.queue;
    forall g | g in s'.queue ensures BackPointer(s', g) {
      if g != f {
        assert g in s.queue && BackPointer(s, g);
      }
    }
  }

  lemma PlaceKeepsMappings(s: State, a: Aux, k: Key, f: nat, page: Page, freed: set<nat>)
    requires PlacePre(s, a, k, f, page, freed)
    ensures ResidentOk(Place(s, k, f, page, freed))
    ensures SwappedOk(Place(s, k, f, page, freed), PlaceAux(a, k, f, page, freed))
  {
    assert Holds(s, a, Frames) && Holds(s, a, Residents) && Holds(s, a, Swaps);
    EntryAfterSet(s.tables, k, PtEntry(f * 4096, true, false));
    assert f !in s.queue;
  }

  lemma PlaceKeepsContent(s: State, a: Aux, k: Key, f: nat, page: Page, freed: set<nat>)
    requires PlacePre(s, a, k, f, page, freed)
    ensures LogicalOk(Place(s, k, f, page, freed), PlaceAux(a, k, f, page, freed))
  {
    assert Holds(s, a, Frames) && Holds(s, a, Residents) && Holds(s, a, Contents);
    var s' := Place(s, k, f, page, freed);
    EntryAfterSet(s.tables, k, PtEntry(f * 4096, true, false));
    assert f !in s.queue;
    forall j ensures Content(s', j) == if j == k then Some(page) else Content(s, j) {
      var e := EntryAt(s.tables, j);
      if j != k && e.valid && !e.swapped { assert e.paddr / 4096 in s.queue; }
    }
  }

  /** Bringing a page in keeps the invariant; a page back from swap has the content it left with. */
  lemma PlaceKeepsInv(s: State, a: Aux, k: Key, f: nat, page: Page, freed: set<nat>)
    requires PlacePre(s, a, k, f, page, freed)
    ensures Inv(Place(s, k, f, page, freed), PlaceAux(a, k, f, page, freed))
    ensures EntryAt(s.tables, k).valid ==> PlaceAux(a, k, f, page, freed).logical == a.logical
    ensures !EntryAt(s.tables, k).valid ==> k !in a.logical
  {
    PlaceKeepsFrames(s, a, k, f, page, freed);
    PlaceKeepsMappings(s, a, k, f, page, freed);
    PlaceKeepsContent(s, a, k, f, page, freed);
    assert Inv(Place(s, k, f, page, freed), PlaceAux(a, k, f, page, freed));
    assert Holds(s, a, Contents);
    assert Content(s, k) == if k in a.logical then Some(a.logical[k]) else None;
    if EntryAt(s.tables, k).valid { assert Content(s, k) == Some(page); }
  }

  /** The invariant sees the page tables only through the entries they hold. */
  lemma SameEntries(s: State, s': State, a: Aux)
    requires Inv(s, a) && s' == s.(tables := s'.tables)
    requires forall k :: EntryAt(s'.tables, k) == EntryAt(s.tables, k)
    ensures Inv(s', a)
  {
    assert Holds(s', a, Frames) by {
      assert Holds(s, a, Frames);
      forall f | f in s.queue ensures BackPointer(s', f) { assert BackPointer(s, f); }
    }
    assert Holds(s', a, Residents) by { assert Holds(s, a, Residents); }
    assert Holds(s', a, Swaps) by { assert Holds(s, a, Swaps); }
    assert Holds(s', a, Blocks) by { assert Holds(s, a, Blocks); }
    assert Holds(s', a, Contents) by {
      assert Holds(s, a, Contents);
      forall j ensures Content(s', j) == Content(s, j) {}
    }
  }

  /** Creating an inner table changes nothing the invariant can see. */
  lemma AddInnerKeepsInv(s: State, a: Aux, k: Key)
    requires Inv(s, a) && k.vpn < NUM_VPNS && k.space in s.tables && !HasInner(s.tables, k)
    ensures Inv(s.(tables := AddInner(s.tables, k)), a)
  {
    EntryAfterAddInner(s.tables, k);
    SameEntries(s, s.(tables := AddInner(s.tables, k)), a);
  }

  function EmptyTable(): Table {
    seq(1024, i => NoInner)
  }

  /** A new address space starts with nothing mapped. */
  lemma NewSpaceKeepsInv(s: State, a: Aux, space: nat)
    requires Inv(s, a) && space !in s.tables
    ensures Inv(s.(tables := s.tables[space := EmptyTable()]), a)
  {
    var s' := s.(tables := s.tables[space := EmptyTable()]);
    forall k ensures EntryAt(s'.tables, k) == EntryAt(s.tables, k) {}
    SameEntries(s, s', a);
  }

  // ---------------------------------------------------------------- stores

  /** Two resident pages are in different frames. */
  lemma OtherFrame(s: State, a: Aux, k: Key, j: Key)
    requires Inv(s, a) && EntryAt(s.tables, k).valid && !EntryAt(s.tables, k).swapped
    ensures EntryAt(s.tables, j).valid && !EntryAt(s.tables, j).swapped && j != k ==>
              EntryAt(s.tables, j).paddr / 4096 != EntryAt(s.tables, k).paddr / 4096
  {
    assert Holds(s, a, Residents);
    assert KeyOf(s.core[EntryAt(s.tables, k).paddr / 4096]) == k;
  }

  lemma StoreKeepsContents(s: State, a: Aux, k: Key, f: nat, page: Page)
    requires Inv(s, a) && EntryAt(s.tables, k).valid && !EntryAt(s.tables, k).swapped
    requires f == EntryAt(s.tables, k).paddr / 4096 < |s.ram|
    ensures LogicalOk(s.(ram := s.ram[f := page]), a.(logical := a.logical[k := page]))
  {
    var s' := s.(ram := s.ram[f := page]);
    assert Holds(s, a, Contents);
    forall j ensures Content(s', j) == if j == k then Some(page) else Content(s, j) { OtherFrame(s, a, k, j); }
  }

  /** A store through the page table of a resident page is a store to the flat memory, and to nothing else. */
  lemma StoreKeepsInv(s: State, a: Aux, k: Key, page: Page)
    requires Inv(s, a) && EntryAt(s.tables, k).valid && !EntryAt(s.tables, k).swapped
    ensures EntryAt(s.tables, k).paddr / 4096 < |s.ram|
    ensures Inv(s.(ram := s.ram[EntryAt(s.tables, k).paddr / 4096 := page]), a.(logical := a.logical[k := page]))
  {
    var f := EntryAt(s.tables, k).paddr / 4096;
    assert f < |s.ram| && f in s.queue by { assert Holds(s, a, Residents); }
    var s', a' := s.(ram := s.ram[f := page]), a.(logical := a.logical[k := page]);
    assert Holds(s', a', Frames) by {
      assert Holds(s, a, Frames);
      forall g | g in s.queue ensures BackPointer(s', g) { assert BackPointer(s, g); }
    }
    assert Holds(s', a', Residents) by { assert Holds(s, a, Residents); }
    assert Holds(s', a', Swaps) by { assert Holds(s, a, Swaps); }
    assert Holds(s', a', Blocks) by { assert Holds(s, a, Blocks); }
    assert Holds(s', a', Contents) by { StoreKeepsContents(s, a, k, f, page); }
  }

  /** The kernel may write its own frames without disturbing any process. */
  lemma KernelWriteKeepsInv(s: State, a: Aux, f: nat, page: Page)
    requires Inv(s, a) && f < |s.ram| && f !in s.queue
    ensures Inv(s.(ram := s.ram[f := page]), a)
  {
    var s' := s.(ram := s.ram[f := page]);
    assert Holds(s', a, Frames) by {
      assert Holds(s, a, Frames);
      forall g | g in s.queue ensures BackPointer(s', g) { assert BackPointer(s, g); }
    }
    assert Holds(s', a, Residents) by { assert Holds(s, a, Residents); }
    assert Holds(s', a, Swaps) by { assert Holds(s, a, Swaps); }
    assert Holds(s', a, Blocks) by { assert Holds(s, a, Blocks); }
    assert Holds(s', a, Contents) by {
      assert Holds(s, a, Contents) && Holds(s, a, Residents);
      forall j ensures Content(s', j) == Content(s, j) {}
    }
  }

  // ---------------------------------------------------------------- kernel blocks

  ghost predicate RunAt(core: seq<CoreEntry>, f: nat, n: nat) {
    f + n <= |core| && forall i :: f <= i < f + n ==> core[i].isFree
  }

  ghost predicate HasRun(core: seq<CoreEntry>, n: nat) {
    exists f :: RunAt(core, f, n)
  }

  /** The lowest-addressed run of n free frames starts at f. */
  ghost predicate IsFirstRun(core: seq<CoreEntry>, f: nat, n: nat) {
    RunAt(core, f, n) && forall g :: 0 <= g < f ==> !RunAt(core, g, n)
  }

  function MarkBlock(core: seq<CoreEntry>, first: nat, n: nat): (r: seq<CoreEntry>)
    ensures |r| == |core|
  {
    seq(|core|, i requires 0 <= i < |core| =>
      if i == first then core[i].(paddr := i * 4096, isFree := false, allocSize := n)
      else if first < i < first + BlockFrames(n) then core[i].(paddr := i * 4096, isFree := false)
      else core[i])
  }

  /** `coremap_kfree` frees as many frames as the block's recorded size. */
  function ReleaseBlock(core: seq<CoreEntry>, first: nat): (r: seq<CoreEntry>)
    requires first < |core|
    ensures |r| == |core|
  {
    var n := core[first].allocSize;
    seq(|core|, i requires 0 <= i < |core| => if first <= i < first + n then core[i].(isFree := true) else core[i])
  }

  ghost function MarkAux(a: Aux, first: nat, n: nat): Aux {
    a.(kernel := a.kernel[first := n],
       uses := seq(|a.uses|, i requires 0 <= i < |a.uses| =>
         if first <= i < first + BlockFrames(n) then Kernel(first) else a.uses[i]))
  }

  ghost function ReleaseAux(a: Aux, first: nat): Aux
    requires first in a.kernel
  {
    var n := a.kernel[first];
    a.(kernel := a.kernel - {first},
       uses := seq(|a.uses|, i requires 0 <= i < |a.uses| =>
         if first <= i < first + n then Free else if i == first then Leaked else a.uses[i]))
  }

  lemma MarkKeepsKernel(s: State, a: Aux, first: nat, n: nat)
    requires FramesOk(s, a) && KernelOk(s, a) && RunAt(s.core, first, BlockFrames(n))
    ensures KernelOk(s.(core := MarkBlock(s.core, first, n)), MarkAux(a, first, n))
  {
    var s', a', m := s.(core := MarkBlock(s.core, first, n)), MarkAux(a, first, n), BlockFrames(n);
    forall f | first <= f < first + m ensures a.uses[f] == Free { assert s.core[f].isFree; }
    forall b | b in a'.kernel
      ensures b + BlockFrames(a'.kernel[b]) <= |s'.core| && s'.core[b].allocSize == a'.kernel[b]
    {
      if b != first { assert a.uses[b] == Kernel(b); }
    }
    forall b, f | b in a'.kernel && b <= f < b + BlockFrames(a'.kernel[b]) && f < |s'.core|
      ensures a'.uses[f] == Kernel(b)
    {
      if b != first { assert a.uses[f] == Kernel(b); }
    }
  }

  lemma MarkKeepsFrames(s: State, a: Aux, first: nat, n: nat)
    requires FramesOk(s, a) && RunAt(s.core, first, BlockFrames(n))
    ensures FramesOk(s.(core := MarkBlock(s.core, first, n)), MarkAux(a, first, n))
    ensures forall g :: g in s.queue ==> g < |s.core| && MarkBlock(s.core, first, n)[g] == s.core[g]
  {
    var s' := s.(core := MarkBlock(s.core, first, n));
    assert s.core[first].isFree;
    forall g | g in s.queue ensures g < |s.core| && s'.core[g] == s.core[g] && BackPointer(s', g) {
      assert BackPointer(s, g);
      assert !s.core[g].isFree;
    }
  }

  /** Mappings and contents see the frame table only through the frames of user pages. */
  lemma SameUserFrames(s: State, s': State, a: Aux, a': Aux)
    requires Inv(s, a) && s' == s.(core := s'.core) && |s'.core| == |s.core|
    requires a'.owner == a.owner && a'.logical == a.logical
    requires forall g :: g in s.queue ==> g < |s.core| && s'.core[g] == s.core[g]
    ensures Holds(s', a', Residents) && Holds(s', a', Swaps) && Holds(s', a', Contents)
  {
    assert Holds(s', a', Residents) by { assert Holds(s, a, Residents); }
    assert Holds(s', a', Swaps) by { assert Holds(s, a, Swaps); }
    assert Holds(s', a', Contents) by {
      assert Holds(s, a, Contents);
      forall j ensures Content(s', j) == Content(s, j) {}
    }
  }

  lemma MarkKeepsInv(s: State, a: Aux, first: nat, n: nat)
    requires Inv(s, a) && RunAt(s.core, first, BlockFrames(n))
    ensures Inv(s.(core := MarkBlock(s.core, first, n)), MarkAux(a, first, n))
  {
    var s', a' := s.(core := MarkBlock(s.core, first, n)), MarkAux(a, first, n);
    assert Holds(s, a, Frames) && Holds(s, a, Blocks);
    assert Holds(s', a', Frames) by { MarkKeepsFrames(s, a, first, n); }
    assert Holds(s', a', Blocks) by { MarkKeepsKernel(s, a, first, n); }
    forall g | g in s.queue ensures g < |s.core| && s'.core[g] == s.core[g] { MarkKeepsFrames(s, a, first, n); }
    SameUserFrames(s, s', a, a');
  }

  lemma ReleaseKeepsKernel(s: State, a: Aux, first: nat)
    requires KernelOk(s, a) && first in a.kernel && first < |s.core|
    ensures KernelOk(s.(core := ReleaseBlock(s.core, first)), ReleaseAux(a, first))
  {
    var s', a' := s.(core := ReleaseBlock(s.core, first)), ReleaseAux(a, first);
    forall b, f | b in a'.kernel && b <= f < b + BlockFrames(a'.kernel[b]) && f < |s.core|
      ensures a'.uses[f] == Kernel(b)
    {
      assert a.uses[f] == Kernel(b);
    }
  }

  lemma ReleaseKeepsFrames(s: State, a: Aux, first: nat)
    requires FramesOk(s, a) && KernelOk(s, a) && first in a.kernel && first < |s.core|
    ensures FramesOk(s.(core := ReleaseBlock(s.core, first)), ReleaseAux(a, first))
    ensures forall g :: g in s.queue ==> g < |s.core| && ReleaseBlock(s.core, first)[g] == s.core[g]
  {
    var s', a', n := s.(core := ReleaseBlock(s.core, first)), ReleaseAux(a, first), a.kernel[first];
    assert s.core[first].allocSize == n;
    forall f | first <= f < first + BlockFrames(n) ensures f < |s.core| && a.uses[f] == Kernel(first) {}
    forall g | g in s.queue ensures g < |s.core| && s'.core[g] == s.core[g] && BackPointer(s', g) {
      assert BackPointer(s, g);
      assert a.uses[g] == User;
    }
  }

  lemma ReleaseKeepsInv(s: State, a: Aux, first: nat)
    requires Inv(s, a) && first in a.kernel
    ensures first < |s.core|
    ensures Inv(s.(core := ReleaseBlock(s.core, first)), ReleaseAux(a, first))
  {
    assert first < |s.core| by { assert Holds(s, a, Blocks); }
    var s', a' := s.(core := ReleaseBlock(s.core, first)), ReleaseAux(a, first);
    assert Holds(s, a, Frames) && Holds(s, a, Blocks);
    assert Holds(s', a', Frames) by { ReleaseKeepsFrames(s, a, first); }
    assert Holds(s', a', Blocks) by { ReleaseKeepsKernel(s, a, first); }
    forall g | g in s.queue ensures g < |s.core| && s'.core[g] == s.core[g] { ReleaseKeepsFrames(s, a, first); }
    SameUserFrames(s, s', a, a');
  }

  lemma NotYetABlock(s: State, a: Aux, first: nat, n: nat)
    requires Inv(s, a) && RunAt(s.core, first, BlockFrames(n))
    ensures first !in a.kernel
  {
    assert Holds(s, a, Frames) && Holds(s, a, Blocks);
    assert s.core[first].isFree && a.uses[first] == Free;
  }

  lemma BlockFrameIsKernel(s: State, a: Aux, first: nat, index: nat)
    requires Inv(s, a) && first in a.kernel && index < a.kernel[first]
    ensures first + index < |s.ram| && first + index !in s.queue
  {
    assert Holds(s, a, Blocks) && Holds(s, a, Frames);
    assert a.uses[first + index] == Kernel(first);
  }

  ghost predicate KeepsBlocks(m: map<nat, nat>, m': map<nat, nat>) {
    forall b :: b in m ==> b in m' && m'[b] == m[b]
  }

  lemma KeepsMore(live: map<nat, nat>, blocks: map<nat, nat>, first: nat, n: nat)
    requires KeepsBlocks(live, blocks)
    ensures KeepsBlocks(live[first := n], blocks[first := n])
  {
  }

  ghost predicate SameFree(c: seq<CoreEntry>, d: seq<CoreEntry>) {
    |c| == |d| && forall f :: 0 <= f < |c| ==> (c[f].isFree <==> d[f].isFree)
  }

  /** Releasing a block restores the free frames exactly when at least one page was requested. */
  lemma ReleaseUndoesMark(core: seq<CoreEntry>, first: nat, n: nat)
    requires RunAt(core, first, BlockFrames(n))
    ensures SameFree(ReleaseBlock(MarkBlock(core, first, n), first), core) <==> n >= 1
  {
    var r := ReleaseBlock(MarkBlock(core, first, n), first);
    if n == 0 {
      assert !r[first].isFree && core[first].isFree;
    }
  }

  // ---------------------------------------------------------------- eviction until there is room

  /** The lowest clear swap slot, or SWAP_SLOTS when none is clear. */
  function LowestClear(marked: set<nat>, from: nat): (r: nat)
    requires from <= SWAP_SLOTS
    ensures from <= r <= SWAP_SLOTS
    ensures r < SWAP_SLOTS ==> r !in marked
    ensures forall i :: from <= i < r ==> i in marked
    decreases SWAP_SLOTS - from
  {
    if from == SWAP_SLOTS || from !in marked then from else LowestClear(marked, from + 1)
  }

  predicate Evictable(s: State) {
    s.queue != [] && LowestClear(s.marked, 0) < SWAP_SLOTS
  }

  function EvictNext(s: State): State {
    var slot := LowestClear(s.marked, 0);
    if s.queue != [] && s.queue[0] < |s.core| == |s.ram| && slot < |s.disk| && HasInner(s.tables, KeyOf(s.core[s.queue[0]]))
    then Evict(s, slot) else s
  }

  function EvictTimes(s: State, j: nat): State {
    if j == 0 then s else EvictNext(EvictTimes(s, j - 1))
  }

  /** After fewer than e evictions there is no run of the wanted length, and another eviction is possible. */
  ghost predicate NoRoomBefore(s: State, n: nat, e: nat) {
    forall j :: 0 <= j < e ==> !HasRun(EvictTimes(s, j).core, BlockFrames(n)) && Evictable(EvictTimes(s, j))
  }

  lemma NoRoomStep(s: State, n: nat, e: nat)
    requires NoRoomBefore(s, n, e) && !HasRun(EvictTimes(s, e).core, BlockFrames(n)) && Evictable(EvictTimes(s, e))
    ensures NoRoomBefore(s, n, e + 1)
  {}

  /** `coremap_kalloc` took the first run that appears as pages are evicted one at a time, oldest first. */
  ghost predicate KAllocated(s: State, n: nat, evictions: nat, first: nat, r: State) {
    var s' := EvictTimes(s, evictions);
    && evictions <= |s.queue|
    && NoRoomBefore(s, n, evictions)
    && IsFirstRun(s'.core, first, BlockFrames(n))
    && r == s'.(core := MarkBlock(s'.core, first, n))
  }

  /** Evictions take frames off the front of the queue, in arrival order. */
  lemma {:induction false} EvictTimesQueue(s: State, a: Aux, j: nat) returns (a': Aux)
    requires Inv(s, a) && j <= |s.queue| && forall i :: 0 <= i < j ==> Evictable(EvictTimes(s, i))
    ensures EvictTimes(s, j).queue == s.queue[j..]
    ensures Inv(EvictTimes(s, j), a') && a'.logical == a.logical
  {
    if j == 0 {
      a' := a;
    } else {
      var b := EvictTimesQueue(s, a, j - 1);
      var s1 := EvictTimes(s, j - 1);
      assert Evictable(s1);
      var slot := LowestClear(s1.marked, 0);
      EvictDefined(s1, b, slot);
      EvictKeepsInv(s1, b, slot);
      a' := EvictAux(s1, b, slot);
    }
  }

  // ---------------------------------------------------------------- single frames for user pages

  ghost predicate HasFree(core: seq<CoreEntry>) {
    exists f :: 0 <= f < |core| && core[f].isFree
  }

  ghost predicate LowestFree(core: seq<CoreEntry>, f: nat) {
    f < |core| && core[f].isFree && forall g :: 0 <= g < f ==> !core[g].isFree
  }

  /** The frame table and queue after `coremap_alloc` reserved frame f for page k. */
  function Taken(s: State, k: Key, f: nat): State
    requires f < |s.core|
  {
    s.(core := s.core[f := CoreEntry(k.space, k.vpn * 4096, f * 4096, false, s.core[f].allocSize)],
       queue := s.queue + [f])
  }

  /** Where the frame comes from: a free one if there is one, otherwise after one eviction. */
  ghost function RoomFor(s: State): State {
    if HasFree(s.core) then s else EvictNext(s)
  }

  /** One eviction is always enough for one frame. */
  lemma RoomHasFree(s: State, a: Aux)
    requires Inv(s, a) && Evictable(s)
    ensures HasFree(EvictNext(s).core)
  {
    EvictDefined(s, a, LowestClear(s.marked, 0));
    assert EvictNext(s).core[s.queue[0]].isFree;
  }

  ghost predicate Resident(s: State, k: Key) {
    EntryAt(s.tables, k).valid && !EntryAt(s.tables, k).swapped
  }

  /** Making room never touches the mapping of a page that is not resident. */
  lemma RoomKeepsAbsent(s: State, a: Aux, k: Key)
    requires Inv(s, a) && (HasFree(s.core) || Evictable(s)) && !Resident(s, k)
    ensures EntryAt(RoomFor(s).tables, k) == EntryAt(s.tables, k)
  {
    assert Holds(s, a, Frames);
    if !HasFree(s.core) {
      var slot := LowestClear(s.marked, 0);
      EvictDefined(s, a, slot);
      var j := KeyOf(s.core[s.queue[0]]);
      assert s.queue[0] in s.queue && BackPointer(s, s.queue[0]);
      EntryAfterSet(s.tables, j, PtEntry(slot, true, true));
    }
  }

  // ---------------------------------------------------------------- the flat memory

  /** What a page holds when first touched: zeros, or whatever loading it from the ELF file left in the frame. */
  datatype Segment = NoSegment | Zeroed | ElfPage(image: Page)

  function InitialPage(seg: Segment): Page {
    if seg.ElfPage? then seg.image else seq(4096, i => 0)
  }

  /** First touch gives the page its initial content; later touches leave it alone. */
  function Touched(m: map<Key, Page>, k: Key, image: Page): map<Key, Page> {
    if k in m then m else m[k := image]
  }

  datatype Access = Load | Store(byte: bv8)

  /** What happens to the machine: user accesses and kernel memory management, in any order. */
  datatype Op =
    | NewSpace(space: nat)
    | Touch(space: nat, va: nat, seg: Segment, access: Access)
    | KernelAlloc(pages: nat)
    | KernelFree(paddr: nat)
    | KernelWrite(first: nat, index: nat, page: Page)

  /** One flat, never-evicted memory per address space. */
  datatype Flat = Flat(spaces: set<nat>, pages: map<Key, Page>)

  function FlatStep(m: Flat, op: Op): (Flat, Option<bv8>) {
    match op
    case NewSpace(space) => (m.(spaces := m.spaces + {space}), None)
    case Touch(space, va, seg, access) =>
      if space !in m.spaces || seg.NoSegment? || va >= 0x1_0000_0000 then (m, None)
      else
        var k := Key(space, va / 4096);
        var pages := Touched(m.pages, k, InitialPage(seg));
        if access.Load? then (m.(pages := pages), Some(pages[k][va % 4096]))
        else (m.(pages := pages[k := pages[k][va % 4096 := access.byte]]), None)
    case _ => (m, None)
  }

  /** The outputs of a run on the flat memory. */
  function FlatRun(m: Flat, ops: seq<Op>): (Flat, seq<Option<bv8>>) {
    if ops == [] then (m, [])
    else
      var (m1, outs) := FlatRun(m, ops[..|ops| - 1]);
      var (m2, out) := FlatStep(m1, ops[|ops| - 1]);
      (m2, outs + [out])
  }

  // ---------------------------------------------------------------- the machine as a function

  /** The lowest free frame. */
  ghost function FreeFrame(core: seq<CoreEntry>): (f: nat)
    requires HasFree(core)
    ensures LowestFree(core, f)
  {
    assert exists f :: 0 <= f < |core| && core[f].isFree;
    FreeFrameFrom(core, 0)
  }

  ghost function FreeFrameFrom(core: seq<CoreEntry>, from: nat): (f: nat)
    requires exists f :: from <= f < |core| && core[f].isFree
    requires forall g :: 0 <= g < from ==> g < |core| && !core[g].isFree
    ensures LowestFree(core, f)
    decreases |core| - from
  {
    if core[from].isFree then from else FreeFrameFrom(core, from + 1)
  }

  /** The start of the lowest run of n free frames. */
  ghost function FirstRun(core: seq<CoreEntry>, n: nat): (f: nat)
    requires HasRun(core, n)
    ensures IsFirstRun(core, f, n)
  {
    var g :| RunAt(core, g, n);
    FirstRunFrom(core, n, 0, g)
  }

  ghost function FirstRunFrom(core: seq<CoreEntry>, n: nat, from: nat, last: nat): (f: nat)
    requires from <= last && RunAt(core, last, n) && forall g :: 0 <= g < from ==> !RunAt(core, g, n)
    ensures IsFirstRun(core, f, n)
    decreases last - from
  {
    if RunAt(core, from, n) then from else FirstRunFrom(core, n, from + 1, last)
  }

  /** How many evictions, oldest page first, make a run; None when they come to an end first. Counting starts at `e`. */
  ghost function Evictions(s: State, n: nat, e: nat): (r: Option<nat>)
    requires e <= |s.queue|
    ensures r.Some? ==> HasRun(EvictTimes(s, r.value).core, BlockFrames(n))
    decreases |s.queue| - e
  {
    if HasRun(EvictTimes(s, e).core, BlockFrames(n)) then Some(e)
    else if !Evictable(EvictTimes(s, e)) || e == |s.queue| then None
    else Evictions(s, n, e + 1)
  }

  /** `coremap_kalloc`: the state it leads to and the first frame; None is the failed assertion. */
  ghost function KAllocTo(s: State, n: nat): Option<(State, nat)> {
    var e := Evictions(s, n, 0);
    if e == None then None
    else
      var r := EvictTimes(s, e.value);
      var first := FirstRun(r.core, BlockFrames(n));
      Some((r.(core := MarkBlock(r.core, first, n)), first))
  }

  /** A page that is not resident comes into the lowest free frame; None when no frame can be had. */
  ghost function PageInTo(s: State, k: Key, image: Page): Option<State> {
    if !HasFree(s.core) && !Evictable(s) then None
    else
      var s1 := RoomFor(s);
      var e := EntryAt(s1.tables, k);
      if !HasFree(s1.core) || |s1.ram| != |s1.core| || !HasInner(s1.tables, k) then Some(s)
      else if !e.valid then Some(Place(s1, k, FreeFrame(s1.core), image, {}))
      else if e.paddr < |s1.disk| then Some(Place(s1, k, FreeFrame(s1.core), s1.disk[e.paddr], {e.paddr}))
      else Some(s)
  }

  ghost function ResidentTo(s: State, k: Key, image: Page): Option<State> {
    if Resident(s, k) then Some(s) else PageInTo(s, k, image)
  }

  /** The inner table is created when missing, in a kernel block of two frames. */
  ghost function InnerTo(s: State, k: Key): Option<State> {
    if HasInner(s.tables, k) then Some(s)
    else
      var r := KAllocTo(s, 2);
      if r == None then None
      else if k.vpn < NUM_VPNS && k.space in r.value.0.tables
        then Some(r.value.0.(tables := AddInner(r.value.0.tables, k)))
      else Some(r.value.0)
  }

  /** A fault on a page of a segment. */
  ghost function FaultTo(s: State, k: Key, image: Page): Option<State> {
    var r := InnerTo(s, k);
    if r == None then None else ResidentTo(r.value, k, image)
  }

  /** The access that follows, through the page table. */
  ghost function AccessTo(s: State, k: Key, offset: nat, access: Access): State {
    var f := EntryAt(s.tables, k).paddr / 4096;
    if access.Load? || f >= |s.ram| || offset >= 4096 then s
    else
      var page: Page := s.ram[f][offset := access.byte];
      s.(ram := s.ram[f := page])
  }

  /** The machine and the kernel blocks its clients hold, with the pages asked for. */
  datatype Machine = Machine(s: State, live: map<nat, nat>)

  /** What one operation does to the machine; None exactly when it runs out of memory. */
  ghost function Exec(m: Machine, op: Op): Option<Machine> {
    match op
    case NewSpace(space) =>
      Some(if space in m.s.tables then m else m.(s := m.s.(tables := m.s.tables[space := EmptyTable()])))
    case Touch(space, va, seg, access) =>
      if space !in m.s.tables || seg.NoSegment? || va >= 0x1_0000_0000 then Some(m)
      else
        var k := Key(space, va / 4096);
        var r := FaultTo(m.s, k, InitialPage(seg));
        if r == None then None else Some(m.(s := AccessTo(r.value, k, va % 4096, access)))
    case KernelAlloc(n) =>
      var r := KAllocTo(m.s, n);
      if r == None then None else Some(Machine(r.value.0, m.live[r.value.1 := n]))
    case KernelFree(paddr) =>
      Some(if paddr % 4096 == 0 && paddr / 4096 in m.live && paddr / 4096 < |m.s.core|
           then Machine(m.s.(core := ReleaseBlock(m.s.core, paddr / 4096)), m.live - {paddr / 4096}) else m)
    case KernelWrite(first, index, page) =>
      Some(if first in m.live && index < m.live[first] && first + index < |m.s.ram|
           then m.(s := m.s.(ram := m.s.ram[first + index := page])) else m)
  }

  /** A whole sequence of operations; None when one of them runs out of memory. */
  ghost function ExecRun(m: Machine, ops: seq<Op>): Option<Machine> {
    if ops == [] then Some(m)
    else
      var r := ExecRun(m, ops[..|ops| - 1]);
      if r == None then None else Exec(r.value, ops[|ops| - 1])
  }

  /** A run that has failed stays failed. */
  lemma {:induction false} ExecRunPrefix(m: Machine, ops: seq<Op>, k: nat)
    requires k <= |ops| && ExecRun(m, ops[..k]) == None
    ensures ExecRun(m, ops) == None
    decreases |ops|
  {
    if k == |ops| {
      assert ops[..k] == ops;
    } else {
      assert ops[..|ops| - 1][..k] == ops[..k];
      ExecRunPrefix(m, ops[..|ops| - 1], k);
    }
  }

  // ---------------------------------------------------------------- when a kernel allocation fails

  lemma {:induction false} CountOn(s: State, n: nat, e: nat)
    requires e <= |s.queue| && NoRoomBefore(s, n, e)
    ensures Evictions(s, n, 0) == Evictions(s, n, e)
    decreases e
  {
    if e > 0 {
      CountOn(s, n, e - 1);
      assert !HasRun(EvictTimes(s, e - 1).core, BlockFrames(n)) && Evictable(EvictTimes(s, e - 1));
    }
  }

  /** What `KAllocated` describes is what the function computes. */
  lemma KAllocatedIs(s: State, n: nat, e: nat, first: nat, r: State)
    requires KAllocated(s, n, e, first, r)
    ensures KAllocTo(s, n) == Some((r, first))
  {
    CountOn(s, n, e);
    var s' := EvictTimes(s, e);
    assert RunAt(s'.core, first, BlockFrames(n));
    assert FirstRun(s'.core, BlockFrames(n)) == first;
  }

  lemma KAllocFails(s: State, n: nat, e: nat)
    requires e <= |s.queue| && NoRoomBefore(s, n, e)
    requires !HasRun(EvictTimes(s, e).core, BlockFrames(n)) && !Evictable(EvictTimes(s, e))
    ensures KAllocTo(s, n) == None
  {
    CountOn(s, n, e);
  }

  /** All that can be evicted has been, after e evictions. */
  ghost predicate AllEvicted(s: State, e: nat) {
    e <= |s.queue| && !Evictable(EvictTimes(s, e)) && forall i :: 0 <= i < e ==> Evictable(EvictTimes(s, i))
  }

  lemma EvictFrees(s: State, n: nat)
    requires HasRun(s.core, n)
    ensures HasRun(EvictNext(s).core, n)
  {
    var f :| RunAt(s.core, f, n);
    assert RunAt(EvictNext(s).core, f, n);
  }

  lemma {:induction false} EvictionsFree(s: State, n: nat, i: nat, e: nat)
    requires i <= e && HasRun(EvictTimes(s, i).core, n)
    ensures HasRun(EvictTimes(s, e).core, n)
    decreases e
  {
    if i < e {
      EvictionsFree(s, n, i, e - 1);
      EvictFrees(EvictTimes(s, e - 1), n);
    }
  }

  /** A kernel allocation fails exactly when evicting every page that can be evicted leaves no run of the length wanted. */
  lemma KAllocFailsIff(s: State, n: nat, e: nat)
    requires AllEvicted(s, e)
    ensures KAllocTo(s, n) == None <==> !HasRun(EvictTimes(s, e).core, BlockFrames(n))
  {
    var i := FirstRoom(s, n, e);
    CountOn(s, n, i);
    if i < e { EvictionsFree(s, BlockFrames(n), i, e); }
  }

  /** The number of evictions after which there is a run, or e when there is none before. */
  lemma {:induction false} FirstRoom(s: State, n: nat, e: nat) returns (i: nat)
    requires forall j :: 0 <= j < e ==> Evictable(EvictTimes(s, j))
    ensures i <= e && NoRoomBefore(s, n, i) && (i < e ==> HasRun(EvictTimes(s, i).core, BlockFrames(n)))
    decreases e
  {
    i := 0;
    while i < e && !HasRun(EvictTimes(s, i).core, BlockFrames(n))
      invariant i <= e && NoRoomBefore(s, n, i)
    {
      i := i + 1;
    }
  }

  // ---------------------------------------------------------------- frame accounting

  ghost function FreeFrames(s: State): set<nat> {
    set f: nat | f < |s.core| && s.core[f].isFree
  }

  /** Frames of the booted kernel, of live kernel blocks, and leaked ones. */
  ghost function KernelFrames(a: Aux): set<nat> {
    set f: nat | f < |a.uses| && !a.uses[f].Free? && !a.uses[f].User?
  }

  function AllFrames(n: nat): (r: set<nat>)
    ensures |r| == n && forall f: nat :: f in r <==> f < n
  {
    if n == 0 then {} else AllFrames(n - 1) + {n - 1}
  }

  lemma UnionSize(x: set<nat>, y: set<nat>)
    requires x !! y
    ensures |x + y| == |x| + |y|
  {}

  /** `f` is one of `n` frames and in exactly one of the three sets, or it is in none of them. */
  ghost predicate OneUse(f: nat, n: nat, fs: set<nat>, us: set<nat>, ks: set<nat>) {
    if f < n then
      (f in fs || f in us || f in ks) && (f in fs ==> f !in us && f !in ks) && (f in us ==> f !in ks)
    else
      f !in fs && f !in us && f !in ks
  }

  lemma FrameHasOneUse(s: State, a: Aux, f: nat, us: set<nat>)
    requires Inv(s, a) && (f in us <==> f in s.queue)
    ensures OneUse(f, |s.core|, FreeFrames(s), us, KernelFrames(a))
  {
    assert Holds(s, a, Frames);
    if f in s.queue { assert BackPointer(s, f); }
  }

  lemma Partition(n: nat, fs: set<nat>, us: set<nat>, ks: set<nat>)
    requires forall f: nat :: OneUse(f, n, fs, us, ks)
    ensures |fs| + |us| + |ks| == n
  {
    assert fs + us + ks == AllFrames(n) by {
      forall f: nat ensures f in fs + us + ks <==> f in AllFrames(n) { assert OneUse(f, n, fs, us, ks); }
    }
    forall f | f in fs + us ensures f !in ks && !(f in fs && f in us) { assert OneUse(f, n, fs, us, ks); }
    UnionSize(fs, us);
    UnionSize(fs + us, ks);
  }

  /** Free, user and kernel frames always total the number of frames. */
  lemma FrameConservation(s: State, a: Aux)
    requires Inv(s, a)
    ensures |FreeFrames(s)| + |s.queue| + |KernelFrames(a)| == |s.core|
  {
    assert Distinct(s.queue) by { assert Holds(s, a, Frames); }
    var us := Elements(s.queue);
    forall f: nat ensures OneUse(f, |s.core|, FreeFrames(s), us, KernelFrames(a)) {
      FrameHasOneUse(s, a, f, us);
    }
    Partition(|s.core|, FreeFrames(s), us, KernelFrames(a));
  }
}
