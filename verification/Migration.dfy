/**
 `thread_consider_migration` run without interference: how many ready threads
 it moves, to whom, and which it leaves alone.
 */
module Migration {
  import opened Sequences

  type Tid = nat

  /** All ready threads, as a multiset, and how many there are. */
  ghost function Ready(qs: seq<seq<Tid>>): multiset<Tid> {
    if qs == [] then multiset{} else multiset(qs[0]) + Ready(qs[1..])
  }

  function Total(qs: seq<seq<Tid>>): nat {
    if qs == [] then 0 else |qs[0]| + Total(qs[1..])
  }

  lemma SumExchange(a: multiset<Tid>, r: multiset<Tid>, r': multiset<Tid>, x: multiset<Tid>, y: multiset<Tid>)
    requires r' + x == r + y
    ensures (a + r') + x == (a + r) + y
  {
    assert (a + r') + x == a + (r' + x);
    assert (a + r) + y == a + (r + y);
  }

  lemma {:induction false} ReadyUpdate(qs: seq<seq<Tid>>, i: nat, q: seq<Tid>)
    requires i < |qs|
    ensures Ready(qs[i := q]) + multiset(qs[i]) == Ready(qs) + multiset(q)
  {
    var qs' := qs[i := q];
    if i > 0 {
      assert qs'[1..] == qs[1..][i - 1 := q] && qs[1..][i - 1] == qs[i];
      ReadyUpdate(qs[1..], i - 1, q);
      SumExchange(multiset(qs[0]), Ready(qs[1..]), Ready(qs'[1..]), multiset(qs[i]), multiset(q));
    } else {
      assert qs'[1..] == qs[1..];
    }
  }

  /** Room below the share on the receivers from position `from` on. */
  ghost function Room(qs: seq<seq<Tid>>, from: nat, me: nat, share: nat): nat
    requires from <= |qs|
    decreases |qs| - from
  {
    if from == |qs| then 0
    else (if from == me || |qs[from]| >= share then 0 else share - |qs[from]|) + Room(qs, from + 1, me, share)
  }

  lemma {:induction false} RoomUnchanged(qs: seq<seq<Tid>>, qs': seq<seq<Tid>>, from: nat, me: nat, share: nat)
    requires from <= |qs| == |qs'| && qs[from..] == qs'[from..]
    ensures Room(qs, from, me, share) == Room(qs', from, me, share)
    decreases |qs| - from
  {
    if from < |qs| {
      assert qs[from] == qs[from..][0] && qs'[from] == qs'[from..][0];
      assert qs[from + 1..] == qs[from..][1..] && qs'[from + 1..] == qs'[from..][1..];
      RoomUnchanged(qs, qs', from + 1, me, share);
    }
  }

  /** Receivers can take everything the local queue holds above the share. */
  lemma {:induction false} RoomSuffices(qs: seq<seq<Tid>>, from: nat, me: nat, share: nat)
    requires from <= |qs|
    ensures Room(qs, from, me, share) + Total(qs[from..]) + (if from <= me < |qs| then share - |qs[me]| else 0)
            >= share * (|qs| - from)
    decreases |qs| - from
  {
    if from < |qs| {
      RoomSuffices(qs, from + 1, me, share);
      assert qs[from..][1..] == qs[from + 1..];
      assert share * (|qs| - from) == share * (|qs| - from - 1) + share;
    }
  }

  function DivRoundUp(a: nat, b: nat): nat
    requires b > 0
  {
    (a + b - 1) / b
  }

  lemma ShareCovers(total: nat, n: nat)
    requires n > 0
    ensures DivRoundUp(total, n) * n >= total
  {
    var q := DivRoundUp(total, n);
    assert q * n + (total + n - 1) % n == total + n - 1;
  }

  /** What remains in the victim list after k of `all` were dealt with: the rest, and the current thread if it came up. */
  ghost function Remaining(all: seq<Tid>, k: nat, cur: Tid): seq<Tid>
    requires k <= |all|
  {
    all[k..] + if cur in all[..k] then [cur] else []
  }

  lemma RemainingStep(all: seq<Tid>, k: nat, cur: Tid)
    requires k < |all| && Distinct(all)
    ensures Remaining(all, k, cur)[0] == all[k]
    ensures all[k] == cur ==> Remaining(all, k + 1, cur) == Remaining(all, k, cur)[1..] + [cur]
    ensures all[k] != cur ==> Remaining(all, k + 1, cur) == Remaining(all, k, cur)[1..]
  {
    assert all[..k + 1] == all[..k] + [all[k]];
    assert all[k..] == [all[k]] + all[k + 1..];
  }

  /** Receivers only grow, never take the current thread, and are not filled past the share. */
  ghost predicate ReceiverOk(before: seq<Tid>, after: seq<Tid>, cur: Tid, share: nat) {
    && before <= after
    && cur !in after[|before|..]
    && (after == before || |after| <= share)
  }

  /** The counting pass over all run queues. */
  method Count(queues: array<seq<Tid>>) returns (total: nat)
    ensures total == Total(queues[..])
  {
    total := 0;
    var i := 0;
    while i < queues.Length
      invariant 0 <= i <= queues.Length
      invariant total + Total(queues[i..]) == Total(queues[..])
    {
      assert queues[i..][1..] == queues[i + 1..];
      total := total + |queues[i]|;
      i := i + 1;
    }
  }

  /** Take `n` threads off the tail of the own run queue, keeping their order. */
  method TakeVictims(queue: seq<Tid>, n: nat) returns (kept: seq<Tid>, victims: seq<Tid>)
    requires n <= |queue|
    ensures kept == queue[..|queue| - n] && victims == queue[|queue| - n..]
  {
    kept, victims := queue, [];
    var i := 0;
    while i < n
      invariant 0 <= i <= n
      invariant kept == queue[..|queue| - i] && victims == queue[|queue| - i..]
    {
      var tail := kept[|kept| - 1];
      kept, victims := kept[..|kept| - 1], [tail] + victims;
      i := i + 1;
    }
  }

  lemma AppendKeeps(before: seq<Tid>, after: seq<Tid>, cur: Tid, t: Tid)
    requires before <= after && cur !in after[|before|..] && t != cur
    ensures before <= after + [t] && cur !in (after + [t])[|before|..]
  {
    assert (after + [t])[|before|..] == after[|before|..] + [t];
  }

  /** The victims dealt with, in order, without the current thread. */
  ghost function Skipping(vs: seq<Tid>, cur: Tid): (r: seq<Tid>) {
    if vs == [] then [] else Skipping(vs[..|vs| - 1], cur) + (if vs[|vs| - 1] == cur then [] else [vs[|vs| - 1]])
  }

  lemma SkippingSnoc(vs: seq<Tid>, t: Tid, cur: Tid)
    ensures Skipping(vs + [t], cur) == Skipping(vs, cur) + (if t == cur then [] else [t])
  {
    assert (vs + [t])[..|vs|] == vs;
  }

  lemma {:induction false} SkippingJoin(vs: seq<Tid>, ws: seq<Tid>, cur: Tid)
    ensures Skipping(vs + ws, cur) == Skipping(vs, cur) + Skipping(ws, cur)
    decreases |ws|
  {
    if ws == [] {
      assert vs + ws == vs;
    } else {
      var front, t := ws[..|ws| - 1], ws[|ws| - 1];
      assert vs + ws == (vs + front) + [t];
      SkippingSnoc(vs + front, t, cur);
      SkippingJoin(vs, front, cur);
    }
  }

  /** The queue `q0` with the victims numbered `from` to `to` behind it, in order. */
  ghost predicate Appended(q0: seq<Tid>, q: seq<Tid>, all: seq<Tid>, from: nat, to: nat, cur: Tid) {
    from <= to <= |all| && q == q0 + Skipping(all[from..to], cur)
  }

  lemma AppendedStep(q0: seq<Tid>, q: seq<Tid>, all: seq<Tid>, from: nat, to: nat, cur: Tid)
    requires Appended(q0, q, all, from, to, cur) && to < |all|
    ensures Appended(q0, if all[to] == cur then q else q + [all[to]], all, from, to + 1, cur)
  {
    assert all[from..to + 1] == all[from..to] + [all[to]];
    SkippingSnoc(all[from..to], all[to], cur);
  }

  lemma NoneAppended(q: seq<Tid>, all: seq<Tid>, from: nat, cur: Tid)
    requires from <= |all|
    ensures Appended(q, q, all, from, from, cur)
  {
    assert all[from..from] == [];
  }

  /** The threads of a queue and of the victims list together. */
  ghost predicate Hold(q: seq<Tid>, vs: seq<Tid>, threads: multiset<Tid>) {
    multiset(q) + multiset(vs) == threads
  }

  lemma MoveOne(q: seq<Tid>, vs: seq<Tid>, threads: multiset<Tid>)
    requires Hold(q, vs, threads) && vs != []
    ensures Hold(q, vs[1..] + [vs[0]], threads) && Hold(q + [vs[0]], vs[1..], threads)
  {
    var t, rest := vs[0], multiset(vs[1..]);
    assert vs == [t] + vs[1..];
    assert multiset(vs) == multiset{t} + rest;
    assert multiset(q + [t]) == multiset(q) + multiset{t};
    assert multiset(vs[1..] + [t]) == rest + multiset{t};
    assert (multiset(q) + multiset{t}) + rest == multiset(q) + (multiset{t} + rest);
  }

  /** What the inner loop keeps: a receiver's queue `q0` has grown to `q`, and `vs` is still in hand. */
  ghost predicate Filling(q0: seq<Tid>, all: seq<Tid>, cur: Tid, share: nat, threads: multiset<Tid>,
                          q: seq<Tid>, toSend: nat, vs: seq<Tid>) {
    && toSend <= |all| && vs == Remaining(all, |all| - toSend, cur)
    && ReceiverOk(q0, q, cur, share)
    && Hold(q, vs, threads)
  }

  lemma FillingStep(q0: seq<Tid>, all: seq<Tid>, cur: Tid, share: nat, threads: multiset<Tid>,
                    q: seq<Tid>, toSend: nat, vs: seq<Tid>)
    requires Distinct(all) && Filling(q0, all, cur, share, threads, q, toSend, vs) && |q| < share && toSend > 0
    ensures vs != [] && vs[0] == all[|all| - toSend]
    ensures vs[0] == cur ==> Filling(q0, all, cur, share, threads, q, toSend - 1, vs[1..] + [vs[0]])
    ensures vs[0] != cur ==> Filling(q0, all, cur, share, threads, q + [vs[0]], toSend - 1, vs[1..])
  {
    RemainingStep(all, |all| - toSend, cur);
    MoveOne(q, vs, threads);
    if vs[0] != cur { AppendKeeps(q0, q, cur, vs[0]); }
  }

  /** What is kept about handing out threads: which and how many they are, and in which order they go. */
  datatype Facet = Amounts | Succession

  /** The state of the inner loop, one facet at a time. */
  ghost predicate FillFacet(p: Facet, q0: seq<Tid>, all: seq<Tid>, from: nat, cur: Tid, share: nat,
                            threads: multiset<Tid>, q: seq<Tid>, toSend: nat, vs: seq<Tid>)
  {
    match p
    case Amounts =>
      from + toSend <= |all| && |q| - |q0| <= |all| - toSend - from && Filling(q0, all, cur, share, threads, q, toSend, vs)
    case Succession => toSend <= |all| && Appended(q0, q, all, from, |all| - toSend, cur)
  }

  ghost predicate FillState(q0: seq<Tid>, all: seq<Tid>, from: nat, cur: Tid, share: nat, threads: multiset<Tid>,
                            q: seq<Tid>, toSend: nat, vs: seq<Tid>)
  {
    forall p: Facet :: FillFacet(p, q0, all, from, cur, share, threads, q, toSend, vs)
  }

  lemma FillStarts(q: seq<Tid>, all: seq<Tid>, cur: Tid, share: nat, toSend: nat, vs: seq<Tid>)
    requires toSend <= |all| && vs == Remaining(all, |all| - toSend, cur)
    ensures FillState(q, all, |all| - toSend, cur, share, multiset(q) + multiset(vs), q, toSend, vs)
  {
    NoneAppended(q, all, |all| - toSend, cur);
  }

  /** One more victim: handed over, or put back to the end of the list when it is the current thread. */
  lemma FillStep(q0: seq<Tid>, all: seq<Tid>, from: nat, cur: Tid, share: nat, threads: multiset<Tid>,
                 q: seq<Tid>, toSend: nat, vs: seq<Tid>)
    requires FillState(q0, all, from, cur, share, threads, q, toSend, vs)
    requires Distinct(all) && |q| < share && toSend > 0
    ensures vs != []
    ensures vs[0] == cur ==> FillState(q0, all, from, cur, share, threads, q, toSend - 1, vs[1..] + [vs[0]])
    ensures vs[0] != cur ==> FillState(q0, all, from, cur, share, threads, q + [vs[0]], toSend - 1, vs[1..])
  {
    assert vs != [] && vs[0] == all[|all| - toSend] by {
      assert FillFacet(Amounts, q0, all, from, cur, share, threads, q, toSend, vs);
      FillingStep(q0, all, cur, share, threads, q, toSend, vs);
    }
    var q', vs' := if vs[0] == cur then q else q + [vs[0]], if vs[0] == cur then vs[1..] + [vs[0]] else vs[1..];
    assert FillFacet(Amounts, q0, all, from, cur, share, threads, q', toSend - 1, vs') by {
      assert FillFacet(Amounts, q0, all, from, cur, share, threads, q, toSend, vs);
      FillingStep(q0, all, cur, share, threads, q, toSend, vs);
    }
    assert FillFacet(Succession, q0, all, from, cur, share, threads, q', toSend - 1, vs') by {
      assert FillFacet(Succession, q0, all, from, cur, share, threads, q, toSend, vs);
      AppendedStep(q0, q, all, from, |all| - toSend, cur);
    }
  }

  /**
   What the inner loop comes to: the victims dealt with are behind the queue in order, except the current thread, which
   is at the end of those left; no thread is lost, and the queue is not filled past the share.
   */
  lemma FillEnds(q0: seq<Tid>, all: seq<Tid>, from: nat, cur: Tid, share: nat, threads: multiset<Tid>,
                 q: seq<Tid>, toSend: nat, vs: seq<Tid>)
    requires FillState(q0, all, from, cur, share, threads, q, toSend, vs)
    ensures toSend <= |all| && vs == Remaining(all, |all| - toSend, cur) && ReceiverOk(q0, q, cur, share)
    ensures multiset(q) + multiset(vs) == threads && |q| - |q0| <= |all| - toSend - from
    ensures Appended(q0, q, all, from, |all| - toSend, cur)
  {
    assert FillFacet(Amounts, q0, all, from, cur, share, threads, q, toSend, vs);
    assert FillFacet(Succession, q0, all, from, cur, share, threads, q, toSend, vs);
  }

  /** Hand victims to a CPU while it is below the share; the current thread goes back to the end of the list. */
  method Fill(queue: seq<Tid>, share: nat, toSend: nat, victims: seq<Tid>, cur: Tid, ghost all: seq<Tid>)
    returns (queue': seq<Tid>, toSend': nat, victims': seq<Tid>)
    requires toSend <= |all| && Distinct(all) && victims == Remaining(all, |all| - toSend, cur)
    ensures toSend' <= toSend && (toSend' == 0 || |queue'| >= share)
    ensures FillState(queue, all, |all| - toSend, cur, share, multiset(queue) + multiset(victims), queue', toSend', victims')
  {
    queue', toSend', victims' := queue, toSend, victims;
    ghost var threads := multiset(queue) + multiset(victims);
    FillStarts(queue, all, cur, share, toSend, victims);
    while |queue'| < share && toSend' > 0
      invariant toSend' <= toSend
      invariant FillState(queue, all, |all| - toSend, cur, share, threads, queue', toSend', victims')
      decreases toSend'
    {
      FillStep(queue, all, |all| - toSend, cur, share, threads, queue', toSend', victims');
      var t := victims'[0];
      victims' := victims'[1..];
      toSend' := toSend' - 1;
      if t == cur {
        victims' := victims' + [t];
      } else {
        queue' := queue' + [t];
      }
    }
  }

  /** What one receiver took: it cannot have been more than it had room for. */
  lemma FillUsesRoom(toSend: nat, toSend': nat, before: nat, after: nat, share: nat, rest: nat)
    requires toSend' <= toSend && (toSend' == 0 || after >= share) && after - before <= toSend - toSend'
    requires toSend <= (if before >= share then 0 else share - before) + rest
    ensures toSend' <= rest
  {}

  /** What has been put behind the queues of the first n CPUs but this one, in order. */
  ghost function Handed(before: seq<seq<Tid>>, after: seq<seq<Tid>>, me: nat, n: nat): seq<Tid>
    requires n <= |before| == |after|
  {
    if n == 0 then []
    else
      Handed(before, after, me, n - 1)
      + (if n - 1 == me || |after[n - 1]| < |before[n - 1]| then [] else after[n - 1][|before[n - 1]|..])
  }

  /** A CPU is given threads only when those before it are full. */
  ghost predicate InTurn(before: seq<seq<Tid>>, after: seq<seq<Tid>>, me: nat, share: nat)
    requires |before| == |after|
  {
    forall j, k :: 0 <= j < k < |before| && j != me && k != me && after[k] != before[k] ==> |after[j]| >= share
  }

  ghost predicate FullBelow(qs: seq<seq<Tid>>, me: nat, share: nat, i: nat) {
    forall j :: 0 <= j < i && j < |qs| && j != me ==> |qs[j]| >= share
  }

  lemma {:induction false} HandedSame(before: seq<seq<Tid>>, qs: seq<seq<Tid>>, i: nat, q: seq<Tid>, me: nat, n: nat)
    requires n <= |before| == |qs| && i < |qs| && (n <= i || i == me)
    ensures Handed(before, qs[i := q], me, n) == Handed(before, qs, me, n)
  {
    if n > 0 { HandedSame(before, qs, i, q, me, n - 1); }
  }

  lemma {:induction false} HandedRest(before: seq<seq<Tid>>, qs: seq<seq<Tid>>, me: nat, i: nat, n: nat)
    requires i <= n <= |before| == |qs| && forall j :: i <= j < n && j != me ==> qs[j] == before[j]
    ensures Handed(before, qs, me, n) == Handed(before, qs, me, i)
    decreases n
  {
    if n > i { HandedRest(before, qs, me, i, n - 1); }
  }

  /** Before CPU i: the first k victims have been handed out in order, and nobody was passed over. */
  ghost predicate InOrder(before: seq<seq<Tid>>, qs: seq<seq<Tid>>, me: nat, cur: Tid, share: nat, all: seq<Tid>,
                          i: nat, k: nat)
  {
    && i <= |before| == |qs| && k <= |all|
    && (forall j :: i <= j < |qs| && j != me ==> qs[j] == before[j])
    && Handed(before, qs, me, i) == Skipping(all[..k], cur)
    && InTurn(before, qs, me, share) && (k < |all| ==> FullBelow(qs, me, share, i))
  }

  lemma HandedStep(before: seq<seq<Tid>>, qs: seq<seq<Tid>>, me: nat, cur: Tid, all: seq<Tid>,
                   i: nat, k: nat, q: seq<Tid>, k': nat)
    requires i < |before| == |qs| && i != me && qs[i] == before[i] && Appended(qs[i], q, all, k, k', cur)
    requires Handed(before, qs, me, i) == Skipping(all[..k], cur)
    ensures Handed(before, qs[i := q], me, i + 1) == Skipping(all[..k'], cur)
  {
    HandedSame(before, qs, i, q, me, i);
    assert q[|qs[i]|..] == Skipping(all[k..k'], cur);
    SkippingJoin(all[..k], all[k..k'], cur);
    assert all[..k] + all[k..k'] == all[..k'];
  }

  lemma TurnStep(before: seq<seq<Tid>>, qs: seq<seq<Tid>>, me: nat, share: nat, i: nat, q: seq<Tid>, more: bool)
    requires |before| == |qs| && i < |qs| && i != me && InTurn(before, qs, me, share) && qs[i] <= q
    requires forall j :: i <= j < |qs| && j != me ==> qs[j] == before[j]
    requires (more ==> FullBelow(qs, me, share, i)) && (q != qs[i] ==> more)
    ensures InTurn(before, qs[i := q], me, share)
    ensures more && |q| >= share ==> FullBelow(qs[i := q], me, share, i + 1)
  {}

  lemma InOrderStep(before: seq<seq<Tid>>, qs: seq<seq<Tid>>, me: nat, cur: Tid, share: nat, all: seq<Tid>,
                    i: nat, k: nat, q: seq<Tid>, k': nat)
    requires InOrder(before, qs, me, cur, share, all, i, k) && i < |qs| && i != me
    requires Appended(qs[i], q, all, k, k', cur) && (k' == |all| || |q| >= share)
    ensures InOrder(before, qs[i := q], me, cur, share, all, i + 1, k')
  {
    HandedStep(before, qs, me, cur, all, i, k, q, k');
    if k == |all| { assert all[k..k'] == []; }
    TurnStep(before, qs, me, share, i, q, k < |all|);
  }

  lemma InOrderSkips(before: seq<seq<Tid>>, qs: seq<seq<Tid>>, me: nat, cur: Tid, share: nat, all: seq<Tid>, i: nat, k: nat)
    requires InOrder(before, qs, me, cur, share, all, i, k)
    ensures i == me && i < |qs| ==> InOrder(before, qs, me, cur, share, all, i + 1, k)
    ensures k == |all| ==> InOrder(before, qs, me, cur, share, all, |qs|, k)
  {
    HandedRest(before, qs, me, i, |qs|);
    if i < |qs| { HandedRest(before, qs, me, i, i + 1); }
  }

  lemma InOrderAtFirst(before: seq<seq<Tid>>, me: nat, cur: Tid, share: nat, all: seq<Tid>, kept: seq<Tid>)
    requires me < |before|
    ensures InOrder(before, before[me := kept], me, cur, share, all, 0, 0)
  {
    assert all[..0] == [];
  }

  lemma InOrderAtLast(before: seq<seq<Tid>>, qs: seq<seq<Tid>>, me: nat, cur: Tid, share: nat, all: seq<Tid>, q: seq<Tid>)
    requires InOrder(before, qs, me, cur, share, all, |qs|, |all|) && me < |qs|
    ensures Handed(before, qs[me := q], me, |before|) == Skipping(all, cur) && InTurn(before, qs[me := q], me, share)
  {
    HandedSame(before, qs, me, q, me, |qs|);
    assert all[..|all|] == all;
  }

  /** Where a successful migration leaves the queues. */
  ghost predicate Migrated(before: seq<seq<Tid>>, after: seq<seq<Tid>>, me: nat, cur: Tid, share: nat)
    requires me < |before| == |after| && share <= |before[me]|
  {
    var victims := before[me][share..];
    && Ready(after) == Ready(before)
    && after[me] == before[me][..share] + (if cur in victims then [cur] else [])
    && Handed(before, after, me, |before|) == Skipping(victims, cur) && InTurn(before, after, me, share)
    && forall i :: 0 <= i < |before| && i != me ==> ReceiverOk(before[i], after[i], cur, share)
  }

  /** State of the hand-out loop before CPU i: what is dealt with, and room for the rest further on. */
  ghost predicate Dealing(before: seq<seq<Tid>>, qs: seq<seq<Tid>>, me: nat, cur: Tid, share: nat, all: seq<Tid>,
                          i: nat, toSend: nat, victims: seq<Tid>)
  {
    && me < |before| == |qs| && i <= |qs| && toSend <= |all| && Distinct(all) && share <= |before[me]|
    && victims == Remaining(all, |all| - toSend, cur)
    && qs[me] == before[me][..share]
    && (forall j :: i <= j < |qs| && j != me ==> qs[j] == before[j])
    && (forall j :: 0 <= j < |qs| && j != me ==> ReceiverOk(before[j], qs[j], cur, share))
    && Ready(qs) + multiset(victims) == Ready(before)
    && toSend <= Room(qs, i, me, share)
  }

  lemma DealtWith(before: seq<seq<Tid>>, qs: seq<seq<Tid>>, me: nat, cur: Tid, share: nat, all: seq<Tid>, i: nat,
                  toSend: nat, victims: seq<Tid>, q: seq<Tid>, toSend': nat, victims': seq<Tid>)
    requires Dealing(before, qs, me, cur, share, all, i, toSend, victims) && i < |qs| && i != me
    requires toSend' <= toSend && victims' == Remaining(all, |all| - toSend', cur) && ReceiverOk(qs[i], q, cur, share)
    requires multiset(q) + multiset(victims') == multiset(qs[i]) + multiset(victims)
    requires (toSend' == 0 || |q| >= share) && |q| - |qs[i]| <= toSend - toSend'
    ensures Dealing(before, qs[i := q], me, cur, share, all, i + 1, toSend', victims')
  {
    assert Ready(qs[i := q]) + multiset(victims') == Ready(before) by {
      ReadyUpdate(qs, i, q);
      ReadyAfterFill(Ready(qs), Ready(qs[i := q]), multiset(qs[i]), multiset(q), multiset(victims), multiset(victims'));
    }
    assert toSend' <= Room(qs[i := q], i + 1, me, share) by {
      FillUsesRoom(toSend, toSend', |qs[i]|, |q|, share, Room(qs, i + 1, me, share));
      RoomUnchanged(qs, qs[i := q], i + 1, me, share);
    }
  }

  /** The own CPU is passed over, and the loop may stop once nothing is left to send. */
  lemma DealingSkips(before: seq<seq<Tid>>, qs: seq<seq<Tid>>, me: nat, cur: Tid, share: nat, all: seq<Tid>,
                     i: nat, toSend: nat, victims: seq<Tid>)
    requires Dealing(before, qs, me, cur, share, all, i, toSend, victims)
    ensures i == me ==> Dealing(before, qs, me, cur, share, all, i + 1, toSend, victims)
    ensures toSend == 0 || i == |qs| ==> toSend == 0 && Dealing(before, qs, me, cur, share, all, |qs|, 0, victims)
  {}

  lemma ReadyAfterFill(r: multiset<Tid>, r': multiset<Tid>, a: multiset<Tid>, a': multiset<Tid>,
                       v: multiset<Tid>, v': multiset<Tid>)
    requires r' + a == r + a' && a' + v' == a + v
    ensures r' + v' == r + v
  {
    forall t ensures (r' + v')[t] == (r + v)[t] {
      assert (r' + a)[t] == (r + a')[t] && (a' + v')[t] == (a + v)[t];
    }
  }

  /** The state of the hand-out loop, one facet at a time. */
  ghost predicate DealFacet(p: Facet, before: seq<seq<Tid>>, qs: seq<seq<Tid>>, me: nat, cur: Tid, share: nat,
                            all: seq<Tid>, i: nat, toSend: nat, victims: seq<Tid>)
  {
    match p
    case Amounts => Dealing(before, qs, me, cur, share, all, i, toSend, victims)
    case Succession => toSend <= |all| && InOrder(before, qs, me, cur, share, all, i, |all| - toSend)
  }

  ghost predicate DealState(before: seq<seq<Tid>>, qs: seq<seq<Tid>>, me: nat, cur: Tid, share: nat,
                            all: seq<Tid>, i: nat, toSend: nat, victims: seq<Tid>)
  {
    forall p: Facet :: DealFacet(p, before, qs, me, cur, share, all, i, toSend, victims)
  }

  /** What the receiver's part relies on. */
  lemma DealReady(before: seq<seq<Tid>>, qs: seq<seq<Tid>>, me: nat, cur: Tid, share: nat,
                  all: seq<Tid>, i: nat, toSend: nat, victims: seq<Tid>)
    requires DealState(before, qs, me, cur, share, all, i, toSend, victims)
    ensures toSend <= |all| && Distinct(all) && victims == Remaining(all, |all| - toSend, cur)
  {
    assert DealFacet(Amounts, before, qs, me, cur, share, all, i, toSend, victims);
  }

  lemma DealAmounts(before: seq<seq<Tid>>, qs: seq<seq<Tid>>, me: nat, cur: Tid, share: nat, all: seq<Tid>, i: nat,
                    toSend: nat, victims: seq<Tid>, q: seq<Tid>, toSend': nat, victims': seq<Tid>, threads: multiset<Tid>)
    requires DealFacet(Amounts, before, qs, me, cur, share, all, i, toSend, victims) && i < |qs| && i != me
    requires toSend' <= toSend <= |all| && (toSend' == 0 || |q| >= share) && threads == multiset(qs[i]) + multiset(victims)
    requires FillFacet(Amounts, qs[i], all, |all| - toSend, cur, share, threads, q, toSend', victims')
    ensures DealFacet(Amounts, before, qs[i := q], me, cur, share, all, i + 1, toSend', victims')
  {
    DealtWith(before, qs, me, cur, share, all, i, toSend, victims, q, toSend', victims');
  }

  lemma DealSuccession(before: seq<seq<Tid>>, qs: seq<seq<Tid>>, me: nat, cur: Tid, share: nat, all: seq<Tid>, i: nat,
                       toSend: nat, victims: seq<Tid>, q: seq<Tid>, toSend': nat, victims': seq<Tid>,
                       threads: multiset<Tid>, from: nat)
    requires DealFacet(Succession, before, qs, me, cur, share, all, i, toSend, victims) && i < |qs| && i != me
    requires toSend' <= toSend <= |all| && (toSend' == 0 || |q| >= share) && from == |all| - toSend
    requires FillFacet(Succession, qs[i], all, from, cur, share, threads, q, toSend', victims')
    ensures DealFacet(Succession, before, qs[i := q], me, cur, share, all, i + 1, toSend', victims')
  {
    InOrderStep(before, qs, me, cur, share, all, i, from, q, |all| - toSend');
  }

  lemma DealStep(before: seq<seq<Tid>>, qs: seq<seq<Tid>>, me: nat, cur: Tid, share: nat, all: seq<Tid>, i: nat,
                 toSend: nat, victims: seq<Tid>, q: seq<Tid>, toSend': nat, victims': seq<Tid>)
    requires DealState(before, qs, me, cur, share, all, i, toSend, victims) && i < |qs| && i != me
    requires toSend' <= toSend <= |all| && (toSend' == 0 || |q| >= share)
    requires FillState(qs[i], all, |all| - toSend, cur, share, multiset(qs[i]) + multiset(victims), q, toSend', victims')
    ensures DealState(before, qs[i := q], me, cur, share, all, i + 1, toSend', victims')
  {
    var threads := multiset(qs[i]) + multiset(victims);
    assert DealFacet(Amounts, before, qs[i := q], me, cur, share, all, i + 1, toSend', victims') by {
      assert DealFacet(Amounts, before, qs, me, cur, share, all, i, toSend, victims);
      assert FillFacet(Amounts, qs[i], all, |all| - toSend, cur, share, threads, q, toSend', victims');
      DealAmounts(before, qs, me, cur, share, all, i, toSend, victims, q, toSend', victims', threads);
    }
    assert DealFacet(Succession, before, qs[i := q], me, cur, share, all, i + 1, toSend', victims') by {
      assert DealFacet(Succession, before, qs, me, cur, share, all, i, toSend, victims);
      assert FillFacet(Succession, qs[i], all, |all| - toSend, cur, share, threads, q, toSend', victims');
      DealSuccession(before, qs, me, cur, share, all, i, toSend, victims, q, toSend', victims', threads, |all| - toSend);
    }
  }

  lemma DealSkips(before: seq<seq<Tid>>, qs: seq<seq<Tid>>, me: nat, cur: Tid, share: nat, all: seq<Tid>,
                  i: nat, toSend: nat, victims: seq<Tid>)
    requires DealState(before, qs, me, cur, share, all, i, toSend, victims) && i <= |qs|
    ensures i == me && i < |qs| ==> DealState(before, qs, me, cur, share, all, i + 1, toSend, victims)
    ensures toSend == 0 || i == |qs| ==> toSend == 0 && DealState(before, qs, me, cur, share, all, |qs|, 0, victims)
  {
    assert DealFacet(Amounts, before, qs, me, cur, share, all, i, toSend, victims);
    assert DealFacet(Succession, before, qs, me, cur, share, all, i, toSend, victims);
    DealingSkips(before, qs, me, cur, share, all, i, toSend, victims);
    InOrderSkips(before, qs, me, cur, share, all, i, |all| - toSend);
  }

  lemma OwnKept(before: seq<seq<Tid>>, qs: seq<seq<Tid>>, me: nat, cur: Tid, share: nat,
                all: seq<Tid>, i: nat, toSend: nat, victims: seq<Tid>)
    requires DealState(before, qs, me, cur, share, all, i, toSend, victims)
    ensures me < |before| == |qs| && share <= |before[me]| && qs[me] == before[me][..share]
  {
    assert DealFacet(Amounts, before, qs, me, cur, share, all, i, toSend, victims);
  }

  /** Offer the victims to CPU i. */
  method DealTo(queues: array<seq<Tid>>, me: nat, cur: Tid, share: nat, i: nat, toSend: nat, victims: seq<Tid>,
                ghost before: seq<seq<Tid>>, ghost all: seq<Tid>)
    returns (toSend': nat, victims': seq<Tid>)
    requires DealState(before, queues[..], me, cur, share, all, i, toSend, victims) && i < queues.Length && i != me
    modifies queues
    ensures DealState(before, queues[..], me, cur, share, all, i + 1, toSend', victims')
  {
    ghost var qs := queues[..];
    DealReady(before, qs, me, cur, share, all, i, toSend, victims);
    var q;
    q, toSend', victims' := Fill(queues[i], share, toSend, victims, cur, all);
    DealStep(before, qs, me, cur, share, all, i, toSend, victims, q, toSend', victims');
    queues[i] := q;
    assert queues[..] == qs[i := q];
  }

  /** Offer the victims to the other CPUs in turn. */
  method Deal(queues: array<seq<Tid>>, me: nat, cur: Tid, share: nat, toSend: nat, victims: seq<Tid>,
              ghost before: seq<seq<Tid>>, ghost all: seq<Tid>)
    returns (victims': seq<Tid>)
    requires DealState(before, queues[..], me, cur, share, all, 0, toSend, victims)
    modifies queues
    ensures DealState(before, queues[..], me, cur, share, all, queues.Length, 0, victims')
  {
    var left: nat, i := toSend, 0;
    victims' := victims;
    while i < queues.Length && left > 0
      invariant 0 <= i <= queues.Length
      invariant DealState(before, queues[..], me, cur, share, all, i, left, victims')
    {
      DealSkips(before, queues[..], me, cur, share, all, i, left, victims');
      if i != me {
        left, victims' := DealTo(queues, me, cur, share, i, left, victims', before, all);
      }
      i := i + 1;
    }
    DealSkips(before, queues[..], me, cur, share, all, i, left, victims');
  }

  lemma StartDealing(before: seq<seq<Tid>>, me: nat, cur: Tid, share: nat)
    requires me < |before| && Distinct(before[me])
    requires share == DivRoundUp(Total(before), |before|) && share <= |before[me]|
    ensures var kept, victims := before[me][..share], before[me][share..];
            DealState(before, before[me := kept], me, cur, share, victims, 0, |victims|, victims)
  {
    var kept, victims := before[me][..share], before[me][share..];
    EnoughRoom(before, kept, me, share);
    assert Ready(before[me := kept]) + multiset(victims) == Ready(before) by {
      ReadyUpdate(before, me, kept);
      TakenAway(Ready(before), Ready(before[me := kept]), kept, victims, before[me]);
    }
    assert Remaining(victims, 0, cur) == victims;
    assert DealFacet(Amounts, before, before[me := kept], me, cur, share, victims, 0, |victims|, victims);
    InOrderAtFirst(before, me, cur, share, victims, kept);
  }

  lemma FinishDealing(before: seq<seq<Tid>>, qs: seq<seq<Tid>>, me: nat, cur: Tid, share: nat, left: seq<Tid>)
    requires me < |before| && share <= |before[me]|
    requires |qs| == |before| && DealState(before, qs, me, cur, share, before[me][share..], |qs|, 0, left)
    ensures left == if cur in before[me][share..] then [cur] else []
    ensures Migrated(before, qs[me := before[me][..share] + left], me, cur, share)
  {
    assert DealFacet(Amounts, before, qs, me, cur, share, before[me][share..], |qs|, 0, left);
    var kept, q := before[me][..share], before[me][..share] + left;
    var qs' := qs[me := q];
    assert qs == qs'[me := kept];
    ReadyUpdate(qs', me, kept);
    TakenAway(Ready(qs'), Ready(qs), kept, left, q);
    assert DealFacet(Succession, before, qs, me, cur, share, before[me][share..], |qs|, 0, left);
    InOrderAtLast(before, qs, me, cur, share, before[me][share..], q);
  }

  /**
   `thread_consider_migration`: no ready thread is lost or duplicated, the
   current thread stays, every other victim finds a CPU, and the local queue is
   left with exactly one share (and the current thread, if it was a victim).
   */
  method ConsiderMigration(queues: array<seq<Tid>>, me: nat, cur: Tid)
    requires me < queues.Length && Distinct(queues[me])
    modifies queues
    ensures var share := DivRoundUp(old(Total(queues[..])), queues.Length);
            if |old(queues[me])| < share then queues[..] == old(queues[..])
            else Migrated(old(queues[..]), queues[..], me, cur, share)
  {
    var total := Count(queues);
    var myCount := |queues[me]|;
    var share := DivRoundUp(total, queues.Length);
    if myCount < share {
      return;
    }
    ghost var before := queues[..];
    StartDealing(before, me, cur, share);
    var kept, victims := TakeVictims(queues[me], myCount - share);
    queues[me] := kept;
    assert queues[..] == before[me := kept];
    var left := Deal(queues, me, cur, share, myCount - share, victims, before, before[me][share..]);
    OwnKept(before, queues[..], me, cur, share, before[me][share..], queues.Length, 0, left);
    FinishDealing(before, queues[..], me, cur, share, left);
    Leftovers(queues, me, left, kept);
  }

  lemma TakenAway(r: multiset<Tid>, r': multiset<Tid>, kept: seq<Tid>, victims: seq<Tid>, q: seq<Tid>)
    requires q == kept + victims && r' + multiset(q) == r + multiset(kept)
    ensures r' + multiset(victims) == r
  {
    assert multiset(q) == multiset(kept) + multiset(victims);
    forall t ensures (r' + multiset(victims))[t] == r[t] {
      assert (r' + multiset(q))[t] == (r + multiset(kept))[t];
    }
  }

  lemma EnoughRoom(before: seq<seq<Tid>>, kept: seq<Tid>, me: nat, share: nat)
    requires me < |before| && share == DivRoundUp(Total(before), |before|) && share <= |before[me]|
    requires |kept| == share
    ensures |before[me]| - share <= Room(before[me := kept], 0, me, share)
  {
    ShareCovers(Total(before), |before|);
    RoomSuffices(before, 0, me, share);
    assert before[0..] == before;
    RoomIgnoresMe(before, kept, 0, me, share);
  }

  lemma {:induction false} RoomIgnoresMe(qs: seq<seq<Tid>>, q: seq<Tid>, from: nat, me: nat, share: nat)
    requires me < |qs| && from <= |qs|
    ensures Room(qs[me := q], from, me, share) == Room(qs, from, me, share)
    decreases |qs| - from
  {
    if from < |qs| { RoomIgnoresMe(qs, q, from + 1, me, share); }
  }

  /** Put what is left of the victims back on the own run queue. */
  method Leftovers(queues: array<seq<Tid>>, me: nat, victims: seq<Tid>, ghost kept: seq<Tid>)
    requires me < queues.Length && queues[me] == kept
    modifies queues
    ensures queues[..] == old(queues[..])[me := kept + victims]
  {
    ghost var qs := queues[..];
    var vs := victims;
    while vs != []
      invariant queues[..] == qs[me := queues[me]] && queues[me] + vs == kept + victims
      decreases |vs|
    {
      ghost var b := queues[..];
      queues[me] := queues[me] + [vs[0]];
      assert queues[..] == b[me := queues[me]];
      vs := vs[1..];
    }
    assert queues[me] == kept + victims;
  }
}
