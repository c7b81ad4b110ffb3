/**
 Page replacement over whole runs of the demand-paging machine, told from
 outside: which pages are resident after each operation, and since when.
 */
module PagingRuns {
  import opened Options
  import opened Sequences
  import opened PagingModel

  // ---------------------------------------------------------------- the resident pages, in the order of the queue

  ghost function KeyAt(s: State, f: nat): Key {
    if f < |s.core| then KeyOf(s.core[f]) else Key(0, 0)
  }

  ghost function Order(s: State): (r: seq<Key>)
    ensures |r| == |s.queue| && forall i :: 0 <= i < |r| ==> r[i] == KeyAt(s, s.queue[i])
  {
    seq(|s.queue|, i requires 0 <= i < |s.queue| => KeyAt(s, s.queue[i]))
  }

  lemma ResidentInOrder(s: State, a: Aux, k: Key)
    requires Inv(s, a)
    ensures Resident(s, k) <==> k in Order(s)
  {
    assert Holds(s, a, Frames) && Holds(s, a, Residents);
    if Resident(s, k) {
      var f := EntryAt(s.tables, k).paddr / 4096;
      var i :| 0 <= i < |s.queue| && s.queue[i] == f;
      assert Order(s)[i] == k;
    }
    if k in Order(s) {
      var i :| 0 <= i < |s.queue| && Order(s)[i] == k;
      assert s.queue[i] in s.queue && BackPointer(s, s.queue[i]);
    }
  }

  /** Frames of queued pages that keep their page keep the order. */
  lemma SameOrder(s: State, s': State)
    requires s'.queue == s.queue && forall f :: f in s.queue ==> KeyAt(s', f) == KeyAt(s, f)
    ensures Order(s') == Order(s)
  {}

  lemma EvictOrder(s: State, a: Aux) returns (a': Aux)
    requires Inv(s, a) && Evictable(s)
    ensures Inv(EvictNext(s), a') && a'.kernel == a.kernel
    ensures Order(s) != [] && Order(EvictNext(s)) == Order(s)[1..]
  {
    var slot := LowestClear(s.marked, 0);
    EvictDefined(s, a, slot);
    EvictKeepsInv(s, a, slot);
    a' := EvictAux(s, a, slot);
  }

  lemma {:induction false} EvictTimesOrder(s: State, a: Aux, e: nat) returns (a': Aux)
    requires Inv(s, a) && e <= |s.queue| && forall i :: 0 <= i < e ==> Evictable(EvictTimes(s, i))
    ensures Inv(EvictTimes(s, e), a') && a'.kernel == a.kernel
    ensures Order(EvictTimes(s, e)) == Order(s)[e..]
  {
    if e == 0 {
      a' := a;
    } else {
      var b := EvictTimesOrder(s, a, e - 1);
      assert Evictable(EvictTimes(s, e - 1));
      a' := EvictOrder(EvictTimes(s, e - 1), b);
    }
  }

  lemma {:induction false} EvictionsPossible(s: State, n: nat, e: nat)
    requires e <= |s.queue| && NoRoomBefore(s, n, e) && Evictions(s, n, e).Some?
    ensures Evictions(s, n, e).value <= |s.queue| && NoRoomBefore(s, n, Evictions(s, n, e).value)
    decreases |s.queue| - e
  {
    if !HasRun(EvictTimes(s, e).core, BlockFrames(n)) {
      NoRoomStep(s, n, e);
      EvictionsPossible(s, n, e + 1);
    }
  }

  lemma MarkOrder(s: State, a: Aux, first: nat, n: nat)
    requires Inv(s, a) && RunAt(s.core, first, BlockFrames(n))
    ensures Order(s.(core := MarkBlock(s.core, first, n))) == Order(s)
  {
    assert Holds(s, a, Frames);
    MarkKeepsFrames(s, a, first, n);
    SameOrder(s, s.(core := MarkBlock(s.core, first, n)));
  }

  /** The kernel allocation as a whole: e evictions, and the rest of the order stays. */
  lemma KAllocOrder(s: State, a: Aux, n: nat) returns (a': Aux, e: nat)
    requires Inv(s, a) && KAllocTo(s, n).Some?
    ensures var r := KAllocTo(s, n).value; Inv(r.0, a') && r.1 !in a.kernel && a'.kernel == a.kernel[r.1 := n]
    ensures e <= |Order(s)| && Order(KAllocTo(s, n).value.0) == Order(s)[e..]
    ensures HasRun(s.core, BlockFrames(n)) ==> e == 0
  {
    EvictionsPossible(s, n, 0);
    e := Evictions(s, n, 0).value;
    var b := EvictTimesOrder(s, a, e);
    var s1 := EvictTimes(s, e);
    var first := FirstRun(s1.core, BlockFrames(n));
    NotYetABlock(s1, b, first, n);
    MarkKeepsInv(s1, b, first, n);
    MarkOrder(s1, b, first, n);
    a' := MarkAux(b, first, n);
  }

  lemma PlaceOrder(s: State, a: Aux, k: Key, f: nat, page: Page, freed: set<nat>)
    requires PlacePre(s, a, k, f, page, freed) && |s.core| == |s.ram|
    ensures Order(Place(s, k, f, page, freed)) == Order(s) + [k]
  {
    assert Holds(s, a, Frames);
    assert f !in s.queue;
    var s' := Place(s, k, f, page, freed);
    forall i | 0 <= i < |s.queue| ensures Order(s')[i] == Order(s)[i] { assert s.queue[i] in s.queue; }
    assert k.vpn * 4096 / 4096 == k.vpn;
  }

  lemma RoomOrder(s: State, a: Aux) returns (a': Aux, e: nat)
    requires Inv(s, a) && (HasFree(s.core) || Evictable(s))
    ensures Inv(RoomFor(s), a') && a'.kernel == a.kernel && HasFree(RoomFor(s).core)
    ensures e <= |Order(s)| && Order(RoomFor(s)) == Order(s)[e..] && (HasFree(s.core) ==> e == 0)
  {
    if HasFree(s.core) {
      a', e := a, 0;
    } else {
      RoomHasFree(s, a);
      a' := EvictOrder(s, a);
      e := 1;
    }
  }

  lemma SwapSlotThere(s: State, a: Aux, k: Key)
    requires Inv(s, a) && EntryAt(s.tables, k).valid && EntryAt(s.tables, k).swapped
    ensures EntryAt(s.tables, k).paddr < |s.disk|
  {
    assert Holds(s, a, Swaps);
  }

  lemma RoomInner(s: State, a: Aux, k: Key)
    requires Inv(s, a) && (HasFree(s.core) || Evictable(s)) && HasInner(s.tables, k)
    ensures HasInner(RoomFor(s).tables, k)
  {
    if !HasFree(s.core) {
      var slot := LowestClear(s.marked, 0);
      EvictDefined(s, a, slot);
      EntryAfterSet(s.tables, KeyOf(s.core[s.queue[0]]), PtEntry(slot, true, true));
    }
  }

  lemma PageInOrder(s: State, a: Aux, k: Key, image: Page) returns (a': Aux, e: nat)
    requires Inv(s, a) && HasInner(s.tables, k) && !Resident(s, k) && PageInTo(s, k, image).Some?
    ensures Inv(PageInTo(s, k, image).value, a') && a'.kernel == a.kernel
    ensures e <= |Order(s)| && Order(PageInTo(s, k, image).value) == Order(s)[e..] + [k]
    ensures HasFree(s.core) ==> e == 0
  {
    var b;
    b, e := RoomOrder(s, a);
    RoomKeepsAbsent(s, a, k);
    RoomInner(s, a, k);
    var s1 := RoomFor(s);
    var entry, f := EntryAt(s1.tables, k), FreeFrame(s1.core);
    if !entry.valid {
      PlaceKeepsInv(s1, b, k, f, image, {});
      PlaceOrder(s1, b, k, f, image, {});
      a' := PlaceAux(b, k, f, image, {});
    } else {
      SwapSlotThere(s1, b, k);
      PlaceKeepsInv(s1, b, k, f, s1.disk[entry.paddr], {entry.paddr});
      PlaceOrder(s1, b, k, f, s1.disk[entry.paddr], {entry.paddr});
      a' := PlaceAux(b, k, f, s1.disk[entry.paddr], {entry.paddr});
    }
  }

  // ---------------------------------------------------------------- what an operation does to the order

  lemma {:induction false} EvictTimesShape(s: State, e: nat)
    ensures SameShape(EvictTimes(s, e).tables, s.tables)
  {
    if e > 0 {
      EvictTimesShape(s, e - 1);
      var s1 := EvictTimes(s, e - 1);
      var slot := LowestClear(s1.marked, 0);
      if EvictNext(s1) != s1 { EntryAfterSet(s1.tables, KeyOf(s1.core[s1.queue[0]]), PtEntry(slot, true, true)); }
    }
  }

  lemma InnerOrder(s: State, a: Aux, k: Key) returns (a': Aux, e: nat)
    requires Inv(s, a) && k.vpn < NUM_VPNS && k.space in s.tables && InnerTo(s, k).Some?
    ensures Inv(InnerTo(s, k).value, a') && HasInner(InnerTo(s, k).value.tables, k) && KeepsBlocks(a.kernel, a'.kernel)
    ensures e <= |Order(s)| && Order(InnerTo(s, k).value) == Order(s)[e..]
    ensures HasInner(s.tables, k) ==> InnerTo(s, k).value == s
    ensures HasInner(s.tables, k) || HasRun(s.core, 2) ==> e == 0
    ensures !HasInner(s.tables, k) ==> !Resident(InnerTo(s, k).value, k)
  {
    if HasInner(s.tables, k) { return a, 0; }
    a', e := KAllocOrder(s, a, 2);
    var s1 := KAllocTo(s, 2).value.0;
    EvictTimesShape(s, Evictions(s, 2, 0).value);
    AddInnerKeepsInv(s1, a', k);
    EntryAfterAddInner(s1.tables, k);
    SameOrder(s1, s1.(tables := AddInner(s1.tables, k)));
  }

  /** The order after an operation: `e` pages gone from the front, and perhaps one new page at the end. */
  ghost predicate Advances(before: seq<Key>, after: seq<Key>, e: nat, joined: seq<Key>) {
    e <= |before| && after == before[e..] + joined && |joined| <= 1 && forall k :: k in joined ==> k !in before
  }

  lemma AccessOrder(s: State, a: Aux, k: Key, offset: nat, access: Access) returns (a': Aux)
    requires Inv(s, a) && Resident(s, k)
    ensures Inv(AccessTo(s, k, offset, access), a') && a'.kernel == a.kernel
    ensures Order(AccessTo(s, k, offset, access)) == Order(s)
  {
    var f := EntryAt(s.tables, k).paddr / 4096;
    if access.Load? || f >= |s.ram| || offset >= 4096 {
      a' := a;
    } else {
      var page: Page := s.ram[f][offset := access.byte];
      StoreKeepsInv(s, a, k, page);
      a' := a.(logical := a.logical[k := page]);
      SameOrder(s, s.(ram := s.ram[f := page]));
    }
  }

  lemma NoneJoined(before: seq<Key>, e: nat)
    requires e <= |before|
    ensures Advances(before, before[e..], e, [])
  {
    assert before[e..] + [] == before[e..];
  }

  lemma Joins(before: seq<Key>, e: nat, e': nat, joined: seq<Key>)
    requires e <= |before| && e' <= |before[e..]| && |joined| <= 1 && forall k :: k in joined ==> k !in before
    ensures Advances(before, before[e..][e'..] + joined, e + e', joined)
  {
    assert before[e..][e'..] == before[e + e'..];
  }

  lemma ResidentOrder(s: State, a: Aux, k: Key, image: Page) returns (a': Aux, e: nat)
    requires Inv(s, a) && HasInner(s.tables, k) && ResidentTo(s, k, image).Some?
    ensures Inv(ResidentTo(s, k, image).value, a') && a'.kernel == a.kernel
    ensures Resident(ResidentTo(s, k, image).value, k)
    ensures e <= |Order(s)| && (HasFree(s.core) ==> e == 0)
    ensures Order(ResidentTo(s, k, image).value) == Order(s)[e..] + if Resident(s, k) then [] else [k]
  {
    if Resident(s, k) {
      a', e := a, 0;
    } else {
      a', e := PageInOrder(s, a, k, image);
      ResidentInOrder(PageInTo(s, k, image).value, a', k);
    }
  }

  lemma FaultOrder(s: State, a: Aux, k: Key, image: Page) returns (a': Aux, e: nat, joined: seq<Key>)
    requires Inv(s, a) && k.vpn < NUM_VPNS && k.space in s.tables && FaultTo(s, k, image).Some?
    ensures Inv(FaultTo(s, k, image).value, a') && Resident(FaultTo(s, k, image).value, k)
    ensures KeepsBlocks(a.kernel, a'.kernel)
    ensures Advances(Order(s), Order(FaultTo(s, k, image).value), e, joined)
    ensures HasInner(s.tables, k) && HasFree(s.core) ==> e == 0
    ensures joined == if Resident(s, k) then [] else [k]
  {
    var b, first := InnerOrder(s, a, k);
    var c, then' := ResidentOrder(InnerTo(s, k).value, b, k, image);
    ResidentInOrder(s, a, k);
    a', e, joined := c, first + then', if Resident(s, k) then [] else [k];
    Joins(Order(s), first, then', joined);
  }

  /** The operation is an access to page `k` in a segment of an existing address space. */
  ghost predicate Touches(s: State, op: Op, k: Key) {
    && op.Touch? && op.space in s.tables && !op.seg.NoSegment? && op.va < 0x1_0000_0000
    && k == Key(op.space, op.va / 4096)
  }

  lemma TouchOrder(m: Machine, a: Aux, op: Op) returns (a': Aux, e: nat, joined: seq<Key>)
    requires Inv(m.s, a) && KeepsBlocks(m.live, a.kernel) && op.Touch? && Exec(m, op).Some?
    ensures Inv(Exec(m, op).value.s, a') && KeepsBlocks(Exec(m, op).value.live, a'.kernel)
    ensures Advances(Order(m.s), Order(Exec(m, op).value.s), e, joined)
    ensures HasInner(m.s.tables, Key(op.space, op.va / 4096)) && HasFree(m.s.core) ==> e == 0
    ensures forall k :: k in joined ==> k == Key(op.space, op.va / 4096)
    ensures forall k :: Touches(m.s, op, k) ==> Resident(Exec(m, op).value.s, k)
  {
    if op.space !in m.s.tables || op.seg.NoSegment? || op.va >= 0x1_0000_0000 {
      a', e, joined := a, 0, [];
    } else {
      var k := Key(op.space, op.va / 4096);
      var b;
      b, e, joined := FaultOrder(m.s, a, k, InitialPage(op.seg));
      a' := AccessOrder(FaultTo(m.s, k, InitialPage(op.seg)).value, b, k, op.va % 4096, op.access);
    }
  }

  lemma ReleaseOrder(s: State, a: Aux, first: nat)
    requires Inv(s, a) && first in a.kernel && first < |s.core|
    ensures Order(s.(core := ReleaseBlock(s.core, first))) == Order(s)
  {
    assert Holds(s, a, Frames) && Holds(s, a, Blocks);
    ReleaseKeepsFrames(s, a, first);
    SameOrder(s, s.(core := ReleaseBlock(s.core, first)));
  }

  lemma KernelOrder(m: Machine, a: Aux, op: Op) returns (a': Aux, e: nat)
    requires Inv(m.s, a) && KeepsBlocks(m.live, a.kernel) && !op.Touch? && Exec(m, op).Some?
    ensures Inv(Exec(m, op).value.s, a') && KeepsBlocks(Exec(m, op).value.live, a'.kernel)
    ensures e <= |Order(m.s)| && Order(Exec(m, op).value.s) == Order(m.s)[e..]
    ensures !op.KernelAlloc? || HasRun(m.s.core, BlockFrames(op.pages)) ==> e == 0
  {
    a', e := a, 0;
    match op
    case NewSpace(space) =>
      if space !in m.s.tables { NewSpaceKeepsInv(m.s, a, space); }
      SameOrder(m.s, Exec(m, op).value.s);
    case KernelAlloc(n) =>
      a', e := KAllocOrder(m.s, a, n);
      KeepsMore(m.live, a.kernel, KAllocTo(m.s, n).value.1, n);
    case KernelFree(paddr) =>
      var first := paddr / 4096;
      if paddr % 4096 == 0 && first in m.live && first < |m.s.core| {
        ReleaseKeepsInv(m.s, a, first);
        ReleaseOrder(m.s, a, first);
        a' := ReleaseAux(a, first);
      }
    case KernelWrite(first, index, page) =>
      if first in m.live && index < m.live[first] && first + index < |m.s.ram| {
        BlockFrameIsKernel(m.s, a, first, index);
        KernelWriteKeepsInv(m.s, a, first + index, page);
      }
      SameOrder(m.s, Exec(m, op).value.s);
  }

  lemma ExecOrder(m: Machine, a: Aux, op: Op) returns (a': Aux, e: nat, joined: seq<Key>)
    requires Inv(m.s, a) && KeepsBlocks(m.live, a.kernel) && Exec(m, op).Some?
    ensures Inv(Exec(m, op).value.s, a') && KeepsBlocks(Exec(m, op).value.live, a'.kernel)
    ensures Advances(Order(m.s), Order(Exec(m, op).value.s), e, joined)
    ensures RoomWithoutEviction(m, op) ==> e == 0
  {
    if op.Touch? {
      a', e, joined := TouchOrder(m, a, op);
    } else {
      a', e := KernelOrder(m, a, op);
      joined := [];
      NoneJoined(Order(m.s), e);
    }
  }

  lemma TouchesOnly(m: Machine, a: Aux, op: Op, k: Key)
    requires Inv(m.s, a) && KeepsBlocks(m.live, a.kernel) && Exec(m, op).Some?
    ensures !Resident(m.s, k) && Resident(Exec(m, op).value.s, k) ==> op.Touch? && k == Key(op.space, op.va / 4096)
    ensures Touches(m.s, op, k) ==> Resident(Exec(m, op).value.s, k)
  {
    var b, e, joined;
    if op.Touch? {
      b, e, joined := TouchOrder(m, a, op);
    } else {
      b, e := KernelOrder(m, a, op);
    }
    ResidentInOrder(m.s, a, k);
    ResidentInOrder(Exec(m, op).value.s, b, k);
  }

  // ---------------------------------------------------------------- whole runs

  /** The operation needs no frame that is not free: a page with its inner table in place, or a run that is there. */
  ghost predicate RoomWithoutEviction(m: Machine, op: Op) {
    match op
    case Touch(space, va, _, _) => HasInner(m.s.tables, Key(space, va / 4096)) && HasFree(m.s.core)
    case KernelAlloc(n) => HasRun(m.s.core, BlockFrames(n))
    case _ => true
  }

  /** The machine after the first `i` operations, as long as none fails. */
  ghost function After(m: Machine, ops: seq<Op>, i: nat): Machine
    requires i <= |ops| && ExecRun(m, ops).Some?
  {
    Succeeds(m, ops, i);
    ExecRun(m, ops[..i]).value
  }

  lemma Succeeds(m: Machine, ops: seq<Op>, i: nat)
    requires i <= |ops| && ExecRun(m, ops).Some?
    ensures ExecRun(m, ops[..i]).Some?
  {
    if ExecRun(m, ops[..i]) == None { ExecRunPrefix(m, ops, i); }
  }

  lemma AfterNext(m: Machine, ops: seq<Op>, i: nat)
    requires i < |ops| && ExecRun(m, ops).Some?
    ensures Exec(After(m, ops, i), ops[i]) == Some(After(m, ops, i + 1))
  {
    Succeeds(m, ops, i);
    Succeeds(m, ops, i + 1);
    assert ops[..i + 1][..i] == ops[..i];
  }

  /** A machine that has just started: well formed, no pages resident, no kernel blocks handed out. */
  ghost predicate Started(m: Machine, a: Aux) {
    Inv(m.s, a) && m.live == map[] && forall k :: !Resident(m.s, k)
  }

  ghost predicate ResidentAt(m: Machine, ops: seq<Op>, i: nat, k: Key)
    requires i <= |ops| && ExecRun(m, ops).Some?
  {
    Resident(After(m, ops, i).s, k)
  }

  /** The operation by which a page that is resident after `i` operations last became so. */
  ghost function Since(m: Machine, ops: seq<Op>, i: nat, k: Key): (j: nat)
    requires i <= |ops| && ExecRun(m, ops).Some?
    ensures j <= i
  {
    if i == 0 || !ResidentAt(m, ops, i - 1, k) then i else Since(m, ops, i - 1, k)
  }

  /** Pages are in the queue in the order in which they became resident. */
  ghost predicate ByArrival(m: Machine, ops: seq<Op>, i: nat, order: seq<Key>)
    requires i <= |ops| && ExecRun(m, ops).Some?
  {
    forall x, y :: 0 <= x < y < |order| ==> Since(m, ops, i, order[x]) < Since(m, ops, i, order[y])
  }

  ghost predicate Orderly(m: Machine, ops: seq<Op>, i: nat, a: Aux)
    requires i <= |ops| && ExecRun(m, ops).Some?
  {
    var n := After(m, ops, i);
    Inv(n.s, a) && KeepsBlocks(n.live, a.kernel) && ByArrival(m, ops, i, Order(n.s))
  }

  lemma StillSince(m: Machine, a: Aux, ops: seq<Op>, i: nat, k: Key)
    requires i < |ops| && ExecRun(m, ops).Some? && Inv(After(m, ops, i).s, a)
    ensures k in Order(After(m, ops, i).s) ==> Since(m, ops, i + 1, k) == Since(m, ops, i, k) <= i
    ensures k !in Order(After(m, ops, i).s) ==> Since(m, ops, i + 1, k) == i + 1
  {
    ResidentInOrder(After(m, ops, i).s, a, k);
  }

  lemma ArrivalStep(m: Machine, a: Aux, ops: seq<Op>, i: nat, after: seq<Key>, e: nat, joined: seq<Key>)
    requires i < |ops| && ExecRun(m, ops).Some? && Inv(After(m, ops, i).s, a)
    requires ByArrival(m, ops, i, Order(After(m, ops, i).s)) && Advances(Order(After(m, ops, i).s), after, e, joined)
    ensures ByArrival(m, ops, i + 1, after)
  {
    var before := Order(After(m, ops, i).s);
    forall x, y | 0 <= x < y < |after| ensures Since(m, ops, i + 1, after[x]) < Since(m, ops, i + 1, after[y]) {
      assert after[x] == before[e + x];
      StillSince(m, a, ops, i, after[x]);
      StillSince(m, a, ops, i, after[y]);
      if y < |before| - e {
        assert after[y] == before[e + y];
      } else {
        assert after[y] in joined;
      }
    }
  }

  lemma {:induction false} RunIsOrderly(m: Machine, a0: Aux, ops: seq<Op>, i: nat) returns (a: Aux)
    requires Started(m, a0) && i <= |ops| && ExecRun(m, ops).Some?
    ensures Orderly(m, ops, i, a)
  {
    if i == 0 {
      a := a0;
      assert ops[..0] == [];
      if Order(m.s) != [] { ResidentInOrder(m.s, a0, Order(m.s)[0]); }
    } else {
      var b := RunIsOrderly(m, a0, ops, i - 1);
      AfterNext(m, ops, i - 1);
      var e, joined;
      a, e, joined := ExecOrder(After(m, ops, i - 1), b, ops[i - 1]);
      ArrivalStep(m, b, ops, i - 1, Order(After(m, ops, i).s), e, joined);
    }
  }

  /** When an operation puts a page out, every page that stays became resident later than it. */
  lemma OldestLeavesFirst(m: Machine, a0: Aux, ops: seq<Op>, i: nat, j: Key, k: Key)
    requires Started(m, a0) && i < |ops| && ExecRun(m, ops).Some?
    requires ResidentAt(m, ops, i, j) && !ResidentAt(m, ops, i + 1, j)
    requires ResidentAt(m, ops, i, k) && ResidentAt(m, ops, i + 1, k)
    ensures Since(m, ops, i, j) < Since(m, ops, i, k)
  {
    var a := RunIsOrderly(m, a0, ops, i);
    AfterNext(m, ops, i);
    var n, n' := After(m, ops, i), After(m, ops, i + 1);
    var b, e, joined := ExecOrder(n, a, ops[i]);
    ResidentInOrder(n.s, a, j);
    ResidentInOrder(n.s, a, k);
    ResidentInOrder(n'.s, b, j);
    ResidentInOrder(n'.s, b, k);
    FrontAndBack(Order(n.s), Order(n'.s), e, joined, j, k);
  }

  lemma FrontAndBack(before: seq<Key>, after: seq<Key>, e: nat, joined: seq<Key>, j: Key, k: Key)
    requires Advances(before, after, e, joined) && j in before && j !in after && k in before && k in after
    ensures exists x, y :: 0 <= x < y < |before| && before[x] == j && before[y] == k
  {
    var x :| 0 <= x < |before| && before[x] == j;
    var y :| 0 <= y < |after| && after[y] == k;
    forall z | e <= z < |before| ensures before[z] in after { assert after[z - e] == before[z]; }
    assert after[y] == before[e + y];
  }

  /** No page is put out while the operation finds room without that. */
  lemma NoNeedlessEviction(m: Machine, a0: Aux, ops: seq<Op>, i: nat, k: Key)
    requires Started(m, a0) && i < |ops| && ExecRun(m, ops).Some? && RoomWithoutEviction(After(m, ops, i), ops[i])
    requires ResidentAt(m, ops, i, k)
    ensures ResidentAt(m, ops, i + 1, k)
  {
    var a := RunIsOrderly(m, a0, ops, i);
    AfterNext(m, ops, i);
    var n, n' := After(m, ops, i), After(m, ops, i + 1);
    var b, e, joined := ExecOrder(n, a, ops[i]);
    ResidentInOrder(n.s, a, k);
    ResidentInOrder(n'.s, b, k);
    var x :| 0 <= x < |Order(n.s)| && Order(n.s)[x] == k;
    assert Order(n'.s)[x] == k;
  }

  /** A page becomes resident only when it is touched, and after a touch that does not fail it is. */
  lemma ResidentWhenTouched(m: Machine, a0: Aux, ops: seq<Op>, i: nat, k: Key)
    requires Started(m, a0) && i < |ops| && ExecRun(m, ops).Some?
    ensures !ResidentAt(m, ops, i, k) && ResidentAt(m, ops, i + 1, k) ==>
              ops[i].Touch? && k == Key(ops[i].space, ops[i].va / 4096)
    ensures Touches(After(m, ops, i).s, ops[i], k) ==> ResidentAt(m, ops, i + 1, k)
  {
    var a := RunIsOrderly(m, a0, ops, i);
    AfterNext(m, ops, i);
    TouchesOnly(After(m, ops, i), a, ops[i], k);
  }

  // ---------------------------------------------------------------- what a load reads

  const EMPTY := Flat({}, map[])

  /** Operation `i` accesses address `va` of an address space that exists by then. */
  ghost predicate AccessesByte(ops: seq<Op>, i: nat, space: nat, va: nat)
    requires i < |ops|
  {
    AccessesPage(ops, i, space, va / 4096) && ops[i].va == va
  }

  /** Operation `i` accesses page `vpn` of an address space that exists by then. */
  ghost predicate AccessesPage(ops: seq<Op>, i: nat, space: nat, vpn: nat)
    requires i < |ops|
  {
    && ops[i].Touch? && ops[i].space == space && ops[i].va / 4096 == vpn
    && !ops[i].seg.NoSegment? && ops[i].va < 0x1_0000_0000 && NewSpace(space) in ops[..i]
  }

  ghost predicate Stores(ops: seq<Op>, i: nat, space: nat, va: nat)
    requires i < |ops|
  {
    AccessesByte(ops, i, space, va) && ops[i].access.Store?
  }

  ghost function FlatAt(ops: seq<Op>, i: nat): Flat
    requires i <= |ops|
  {
    FlatRun(EMPTY, ops[..i]).0
  }

  ghost function ByteAt(m: Flat, space: nat, va: nat): Option<bv8> {
    if Key(space, va / 4096) in m.pages then Some(m.pages[Key(space, va / 4096)][va % 4096]) else None
  }

  lemma FlatNext(ops: seq<Op>, i: nat)
    requires i < |ops|
    ensures FlatAt(ops, i + 1) == FlatStep(FlatAt(ops, i), ops[i]).0
    ensures |FlatRun(EMPTY, ops[..i]).1| == i
    ensures FlatRun(EMPTY, ops[..i + 1]).1 == FlatRun(EMPTY, ops[..i]).1 + [FlatStep(FlatAt(ops, i), ops[i]).1]
  {
    assert ops[..i + 1][..i] == ops[..i];
    OneOutputEach(EMPTY, ops[..i]);
  }

  lemma {:induction false} OneOutputEach(m: Flat, ops: seq<Op>)
    ensures |FlatRun(m, ops).1| == |ops|
  {
    if ops != [] { OneOutputEach(m, ops[..|ops| - 1]); }
  }

  lemma {:induction false} OutputsStay(ops: seq<Op>, i: nat, n: nat)
    requires i < n <= |ops|
    ensures |FlatRun(EMPTY, ops[..n]).1| == n
    ensures FlatRun(EMPTY, ops[..n]).1[i] == FlatStep(FlatAt(ops, i), ops[i]).1
    decreases n
  {
    FlatNext(ops, n - 1);
    if i < n - 1 { OutputsStay(ops, i, n - 1); }
  }

  lemma {:induction false} SpacesAre(ops: seq<Op>, i: nat, space: nat)
    requires i <= |ops|
    ensures space in FlatAt(ops, i).spaces <==> NewSpace(space) in ops[..i]
  {
    if i > 0 {
      SpacesAre(ops, i - 1, space);
      FlatNext(ops, i - 1);
      assert ops[..i] == ops[..i - 1] + [ops[i - 1]];
    }
  }

  /** The byte of a page on first touch: zero, or what the ELF page holds there. */
  ghost predicate StartsAs(seg: Segment, va: nat, b: bv8) {
    match seg
    case NoSegment => false
    case Zeroed => b == 0
    case ElfPage(image) => b == image[va % 4096]
  }

  lemma ByteStep(ops: seq<Op>, i: nat, space: nat, va: nat)
    requires i < |ops|
    ensures var before, after := ByteAt(FlatAt(ops, i), space, va), ByteAt(FlatAt(ops, i + 1), space, va);
            && (Stores(ops, i, space, va) ==> after == Some(ops[i].access.byte))
            && (!Stores(ops, i, space, va) && before.Some? ==> after == before)
            && (!Stores(ops, i, space, va) && before == None && AccessesPage(ops, i, space, va / 4096) ==>
                  after.Some? && StartsAs(ops[i].seg, va, after.value))
            && (!AccessesPage(ops, i, space, va / 4096) ==> after == before)
  {
    FlatNext(ops, i);
    SpacesAre(ops, i, space);
    FlatByte(FlatAt(ops, i), ops[i], space, va);
  }

  /** One step of the flat memory, seen from one byte. */
  lemma FlatByte(m: Flat, op: Op, space: nat, va: nat)
    ensures var before, after := ByteAt(m, space, va), ByteAt(FlatStep(m, op).0, space, va);
            if !(op.Touch? && op.space == space && space in m.spaces && op.va / 4096 == va / 4096
                 && !op.seg.NoSegment? && op.va < 0x1_0000_0000)
            then after == before
            else if op.access.Store? && op.va == va then after == Some(op.access.byte)
            else if before.Some? then after == before
            else after.Some? && StartsAs(op.seg, va, after.value)
  {}

  lemma {:induction false} ByteStays(ops: seq<Op>, i: nat, k: nat, space: nat, va: nat)
    requires i <= k <= |ops| && ByteAt(FlatAt(ops, i), space, va).Some?
    requires forall j :: i <= j < k ==> !Stores(ops, j, space, va)
    ensures ByteAt(FlatAt(ops, k), space, va) == ByteAt(FlatAt(ops, i), space, va)
    decreases k
  {
    if k > i {
      ByteStays(ops, i, k - 1, space, va);
      ByteStep(ops, k - 1, space, va);
    }
  }

  lemma {:induction false} UntouchedIsAbsent(ops: seq<Op>, k: nat, space: nat, va: nat)
    requires k <= |ops| && forall j :: 0 <= j < k ==> !AccessesPage(ops, j, space, va / 4096)
    ensures ByteAt(FlatAt(ops, k), space, va) == None
  {
    if k > 0 {
      UntouchedIsAbsent(ops, k - 1, space, va);
      ByteStep(ops, k - 1, space, va);
    }
  }

  /** A load's output is the byte at its address. */
  lemma LoadOutput(ops: seq<Op>, k: nat, space: nat, va: nat)
    requires k < |ops| && AccessesByte(ops, k, space, va) && ops[k].access.Load?
    requires ByteAt(FlatAt(ops, k), space, va).Some?
    ensures |FlatRun(EMPTY, ops).1| == |ops| && FlatRun(EMPTY, ops).1[k] == ByteAt(FlatAt(ops, k), space, va)
  {
    OutputsStay(ops, k, |ops|);
    assert ops[..|ops|] == ops;
    SpacesAre(ops, k, space);
  }

  /** A load reads the byte that was stored last at that address of that address space. */
  lemma LoadReadsLastStore(ops: seq<Op>, i: nat, k: nat, space: nat, va: nat)
    requires i < k < |ops| && Stores(ops, i, space, va) && AccessesByte(ops, k, space, va) && ops[k].access.Load?
    requires forall j :: i < j < k ==> !Stores(ops, j, space, va)
    ensures |FlatRun(EMPTY, ops).1| == |ops| && FlatRun(EMPTY, ops).1[k] == Some(ops[i].access.byte)
  {
    ByteStep(ops, i, space, va);
    ByteStays(ops, i + 1, k, space, va);
    LoadOutput(ops, k, space, va);
  }

  /** Before any store a load reads what the first access to the page, it or an earlier one, found: zero or the image. */
  lemma LoadReadsInitial(ops: seq<Op>, i: nat, k: nat, space: nat, va: nat)
    requires i <= k < |ops| && AccessesPage(ops, i, space, va / 4096)
    requires AccessesByte(ops, k, space, va) && ops[k].access.Load?
    requires forall j :: 0 <= j < i ==> !AccessesPage(ops, j, space, va / 4096)
    requires forall j :: i <= j < k ==> !Stores(ops, j, space, va)
    ensures |FlatRun(EMPTY, ops).1| == |ops| && FlatRun(EMPTY, ops).1[k].Some?
    ensures StartsAs(ops[i].seg, va, FlatRun(EMPTY, ops).1[k].value)
  {
    UntouchedIsAbsent(ops, i, space, va);
    ByteStep(ops, i, space, va);
    if i < k {
      ByteStays(ops, i + 1, k, space, va);
      LoadOutput(ops, k, space, va);
    } else {
      OutputsStay(ops, k, |ops|);
      assert ops[..|ops|] == ops;
      SpacesAre(ops, k, space);
    }
  }

  // ---------------------------------------------------------------- kernel blocks

  lemma BlockFrameTaken(s: State, a: Aux, b: nat, index: nat)
    requires Inv(s, a) && b in a.kernel && index < BlockFrames(a.kernel[b])
    ensures b + index < |s.core| == |s.ram| && !s.core[b + index].isFree && b + index !in s.queue
    ensures a.uses[b + index] == Kernel(b)
  {
    assert Holds(s, a, Blocks) && Holds(s, a, Frames);
    assert a.uses[b + index] == Kernel(b);
  }

  /** In every run the blocks handed to the kernel are apart from each other, from free frames and from user pages. */
  lemma LiveBlocksApart(m: Machine, a0: Aux, ops: seq<Op>, i: nat, b: nat, x: nat, c: nat, y: nat)
    requires Started(m, a0) && i <= |ops| && ExecRun(m, ops).Some?
    requires var live := After(m, ops, i).live;
             b in live && x < BlockFrames(live[b]) && c in live && y < BlockFrames(live[c])
    ensures var s := After(m, ops, i).s; b + x < |s.core| && !s.core[b + x].isFree
    ensures b != c ==> b + x != c + y
    ensures forall k :: ResidentAt(m, ops, i, k) ==> EntryAt(After(m, ops, i).s.tables, k).paddr / 4096 != b + x
  {
    var a := RunIsOrderly(m, a0, ops, i);
    var s := After(m, ops, i).s;
    BlockFrameTaken(s, a, b, x);
    BlockFrameTaken(s, a, c, y);
    assert Holds(s, a, Residents);
  }

  lemma {:induction false} EvictTimesRam(s: State, e: nat)
    ensures EvictTimes(s, e).ram == s.ram
  {
    if e > 0 { EvictTimesRam(s, e - 1); }
  }

  lemma InnerRam(s: State, k: Key)
    requires InnerTo(s, k).Some?
    ensures InnerTo(s, k).value.ram == s.ram
  {
    if !HasInner(s.tables, k) { EvictTimesRam(s, Evictions(s, 2, 0).value); }
  }

  lemma PageInRam(s: State, a: Aux, k: Key, image: Page, b: nat, index: nat)
    requires Inv(s, a) && b in a.kernel && index < BlockFrames(a.kernel[b])
    requires HasInner(s.tables, k) && !Resident(s, k) && PageInTo(s, k, image).Some?
    ensures var s' := PageInTo(s, k, image).value;
            b + index < |s.ram| && b + index < |s'.ram| && s'.ram[b + index] == s.ram[b + index]
  {
    var a', e := RoomOrder(s, a);
    BlockFrameTaken(s, a, b, index);
    BlockFrameTaken(RoomFor(s), a', b, index);
    assert RoomFor(s).ram == s.ram;
  }

  lemma AccessRam(s: State, a: Aux, k: Key, offset: nat, access: Access, b: nat, index: nat)
    requires Inv(s, a) && b in a.kernel && index < BlockFrames(a.kernel[b]) && Resident(s, k)
    ensures var s' := AccessTo(s, k, offset, access);
            b + index < |s.ram| && b + index < |s'.ram| && s'.ram[b + index] == s.ram[b + index]
  {
    BlockFrameTaken(s, a, b, index);
    assert Holds(s, a, Residents);
  }

  lemma TouchRam(m: Machine, a: Aux, op: Op, b: nat, index: nat)
    requires Inv(m.s, a) && b in a.kernel && index < BlockFrames(a.kernel[b]) && op.Touch? && Exec(m, op).Some?
    ensures var s' := Exec(m, op).value.s;
            b + index < |m.s.ram| && b + index < |s'.ram| && s'.ram[b + index] == m.s.ram[b + index]
  {
    BlockFrameTaken(m.s, a, b, index);
    if op.space in m.s.tables && !op.seg.NoSegment? && op.va < 0x1_0000_0000 {
      var k, image := Key(op.space, op.va / 4096), InitialPage(op.seg);
      var a1, e1 := InnerOrder(m.s, a, k);
      var s1 := InnerTo(m.s, k).value;
      InnerRam(m.s, k);
      if !Resident(s1, k) { PageInRam(s1, a1, k, image, b, index); }
      var a2, e2 := ResidentOrder(s1, a1, k, image);
      AccessRam(ResidentTo(s1, k, image).value, a2, k, op.va % 4096, op.access, b, index);
    }
  }

  lemma KernelRam(m: Machine, a: Aux, op: Op, b: nat, index: nat)
    requires Inv(m.s, a) && KeepsBlocks(m.live, a.kernel) && b in m.live && index < m.live[b]
    requires !op.Touch? && Exec(m, op).Some?
    ensures var s' := Exec(m, op).value.s;
            && b + index < |m.s.ram| && b + index < |s'.ram|
            && s'.ram[b + index] ==
                 if op.KernelWrite? && op.first == b && op.index == index then op.page else m.s.ram[b + index]
  {
    BlockFrameTaken(m.s, a, b, index);
    match op
    case KernelAlloc(n) => EvictTimesRam(m.s, Evictions(m.s, n, 0).value);
    case KernelWrite(first, i, page) =>
      if first in m.live && i < m.live[first] { BlockFrameTaken(m.s, a, first, i); }
    case _ =>
  }

  /** In every run a frame of a block the kernel holds keeps what the kernel stored there last. */
  lemma KernelDataStays(m: Machine, a0: Aux, ops: seq<Op>, i: nat, b: nat, index: nat)
    requires Started(m, a0) && i < |ops| && ExecRun(m, ops).Some?
    requires b in After(m, ops, i).live && index < After(m, ops, i).live[b]
    ensures var s, s' := After(m, ops, i).s, After(m, ops, i + 1).s;
            && b + index < |s.ram| && b + index < |s'.ram|
            && s'.ram[b + index] ==
                 if ops[i].KernelWrite? && ops[i].first == b && ops[i].index == index then ops[i].page else s.ram[b + index]
  {
    var a := RunIsOrderly(m, a0, ops, i);
    AfterNext(m, ops, i);
    if ops[i].Touch? {
      TouchRam(After(m, ops, i), a, ops[i], b, index);
    } else {
      KernelRam(After(m, ops, i), a, ops[i], b, index);
    }
  }

  /** The blocks the kernel holds are those it was given and has not given back, with the size it asked for. */
  lemma BlocksChange(m: Machine, a0: Aux, ops: seq<Op>, i: nat) returns (first: nat)
    requires Started(m, a0) && i < |ops| && ExecRun(m, ops).Some?
    ensures var live, live' := After(m, ops, i).live, After(m, ops, i + 1).live;
            && (ops[i].KernelAlloc? ==> first !in live && live' == live[first := ops[i].pages])
            && (ops[i].KernelFree? && ops[i].paddr % 4096 == 0 ==> live' == live - {ops[i].paddr / 4096})
            && (!ops[i].KernelAlloc? && !ops[i].KernelFree? ==> live' == live)
  {
    var a := RunIsOrderly(m, a0, ops, i);
    AfterNext(m, ops, i);
    var n, op := After(m, ops, i), ops[i];
    first := 0;
    if op.KernelAlloc? {
      first := KAllocTo(n.s, op.pages).value.1;
      var a', e := KAllocOrder(n.s, a, op.pages);
    } else if op.KernelFree? && op.paddr / 4096 in n.live {
      BlockFrameTaken(n.s, a, op.paddr / 4096, 0);
    }
  }

  /** Frames given back are free, and no others change hands. */
  lemma FreedFramesAreFree(m: Machine, a0: Aux, ops: seq<Op>, i: nat, b: nat, f: nat)
    requires Started(m, a0) && i < |ops| && ExecRun(m, ops).Some? && ops[i] == KernelFree(b * 4096)
    requires b in After(m, ops, i).live && f < |After(m, ops, i).s.core|
    ensures f < |After(m, ops, i + 1).s.core|
    ensures After(m, ops, i + 1).s.core[f].isFree <==>
              After(m, ops, i).s.core[f].isFree || b <= f < b + After(m, ops, i).live[b]
  {
    var a := RunIsOrderly(m, a0, ops, i);
    AfterNext(m, ops, i);
    BlockFrameTaken(After(m, ops, i).s, a, b, 0);
    assert Holds(After(m, ops, i).s, a, Blocks);
  }
}
