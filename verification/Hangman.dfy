/**
 The deadlock detector of `hangman.c`. An actor waits for at most one lockable
 and a lockable is held by at most one actor, so the waits-for graph gives
 every actor at most one successor. The detector walks it before adding an
 edge; that walk ends only because the graph is kept free of cycles.
 */
module Hangman {
  import opened Options

  type Actor = nat
  type Lockable = nat

  datatype Graph = Graph(waiting: map<Actor, Lockable>, holding: map<Lockable, Actor>)

  /** The holder of what `a` waits for. */
  function Successor(g: Graph, a: Actor): Option<Actor> {
    if a in g.waiting && g.waiting[a] in g.holding then Some(g.holding[g.waiting[a]]) else None
  }

  /** The actor `n` steps along the waits-for graph. */
  ghost function Follow(g: Graph, a: Actor, n: nat): Option<Actor>
    decreases n
  {
    if n == 0 then Some(a)
    else match Successor(g, a)
      case None => None
      case Some(b) => Follow(g, b, n - 1)
  }

  ghost predicate Reaches(g: Graph, a: Actor, b: Actor) {
    exists n: nat :: Follow(g, a, n) == Some(b)
  }

  /** Some actors wait for each other in a circle. */
  ghost predicate Deadlocked(g: Graph) {
    exists a: Actor, n: nat :: n > 0 && Follow(g, a, n) == Some(a)
  }

  // ---------------------------------------------------------------- ranks

  /** A rank that falls along every edge. */
  ghost predicate Ranked(g: Graph, rank: Actor -> nat) {
    forall a :: Successor(g, a).Some? ==> rank(Successor(g, a).value) < rank(a)
  }

  lemma {:induction false} RankFalls(g: Graph, rank: Actor -> nat, a: Actor, n: nat)
    requires Ranked(g, rank) && Follow(g, a, n).Some?
    ensures rank(Follow(g, a, n).value) + n <= rank(a)
    decreases n
  {
    if n > 0 {
      assert Successor(g, a).Some?;
      RankFalls(g, rank, Successor(g, a).value, n - 1);
    }
  }

  lemma RankedNotDeadlocked(g: Graph, rank: Actor -> nat)
    requires Ranked(g, rank)
    ensures !Deadlocked(g)
  {
    forall a: Actor, n: nat | n > 0 && Follow(g, a, n) == Some(a) ensures false { RankFalls(g, rank, a, n); }
  }

  // ---------------------------------------------------------------- the three operations

  datatype Op = Wait(a: Actor, l: Lockable) | Acquire(a: Actor, l: Lockable) | Release(a: Actor, l: Lockable)

  /** The graph with the new edge, whatever it may close. */
  function AddWait(g: Graph, a: Actor, l: Lockable): Graph {
    g.(waiting := g.waiting[a := l])
  }

  /** The calls that do not panic. */
  ghost predicate Permitted(g: Graph, op: Op) {
    match op
    case Wait(a, l) => a !in g.waiting && !Deadlocked(AddWait(g, a, l))
    case Acquire(a, l) => a in g.waiting && g.waiting[a] == l && l !in g.holding
    case Release(a, l) => a !in g.waiting && l in g.holding && g.holding[l] == a
  }

  function Apply(g: Graph, op: Op): Graph {
    match op
    case Wait(a, l) => AddWait(g, a, l)
    case Acquire(a, l) => Graph(g.waiting - {a}, g.holding[l := a])
    case Release(a, l) => g.(holding := g.holding - {l})
  }

  // ---------------------------------------------------------------- waiting

  lemma ReachesThroughSuccessor(g: Graph, a: Actor, t: Actor)
    requires Successor(g, a).Some?
    ensures Reaches(g, Successor(g, a).value, t) ==> Reaches(g, a, t)
    ensures Reaches(g, a, t) && a != t ==> Reaches(g, Successor(g, a).value, t)
  {
    var b := Successor(g, a).value;
    if Reaches(g, b, t) {
      var n: nat :| Follow(g, b, n) == Some(t);
      assert Follow(g, a, n + 1) == Some(t);
    }
    if Reaches(g, a, t) && a != t {
      var n: nat :| Follow(g, a, n) == Some(t);
      assert Follow(g, b, n - 1) == Some(t);
    }
  }

  /** Actors from which `t` can be reached move up past the new successor of `t`. */
  ghost function Lifted(g: Graph, rank: Actor -> nat, t: Actor, lift: nat): Actor -> nat {
    x => if Reaches(g, x, t) then rank(x) + lift else rank(x)
  }

  /** An edge to an actor that cannot reach back leaves the graph without cycles. */
  lemma WaitKeepsRanked(g: Graph, rank: Actor -> nat, a: Actor, l: Lockable)
    requires Ranked(g, rank) && a !in g.waiting
    requires l in g.holding ==> !Reaches(g, g.holding[l], a)
    ensures Ranked(AddWait(g, a, l), Lifted(g, rank, a, if l in g.holding then rank(g.holding[l]) + 1 else 0))
  {
    var lift := if l in g.holding then rank(g.holding[l]) + 1 else 0;
    var g', rank' := AddWait(g, a, l), Lifted(g, rank, a, lift);
    forall x | Successor(g', x).Some? ensures rank'(Successor(g', x).value) < rank'(x) {
      if x == a {
        assert Follow(g, a, 0) == Some(a);
      } else {
        assert Successor(g, x) == Successor(g', x);
        ReachesThroughSuccessor(g, x, a);
      }
    }
  }

  lemma {:induction false} PathKept(g: Graph, a: Actor, l: Lockable, x: Actor, n: nat)
    requires a !in g.waiting && Follow(g, x, n) == Some(a)
    ensures Follow(AddWait(g, a, l), x, n) == Some(a)
    decreases n
  {
    if n > 0 {
      assert x != a;
      assert Successor(AddWait(g, a, l), x) == Successor(g, x);
      PathKept(g, a, l, Successor(g, x).value, n - 1);
    }
  }

  /** The new edge closes a circle exactly when the waiter can be reached from the holder. */
  lemma CycleIffReachable(g: Graph, rank: Actor -> nat, a: Actor, l: Lockable)
    requires Ranked(g, rank) && a !in g.waiting
    ensures Deadlocked(AddWait(g, a, l)) <==> l in g.holding && Reaches(g, g.holding[l], a)
  {
    if l in g.holding && Reaches(g, g.holding[l], a) {
      var b := g.holding[l];
      var n: nat :| Follow(g, b, n) == Some(a);
      PathKept(g, a, l, b, n);
      assert Successor(AddWait(g, a, l), a) == Some(b);
      assert Follow(AddWait(g, a, l), a, n + 1) == Some(a);
    } else {
      WaitKeepsRanked(g, rank, a, l);
      RankedNotDeadlocked(AddWait(g, a, l), Lifted(g, rank, a, if l in g.holding then rank(g.holding[l]) + 1 else 0));
    }
  }

  // ---------------------------------------------------------------- every run

  /** Each permitted call keeps a rank, so the graph stays without cycles. */
  lemma StepKeepsRanked(g: Graph, rank: Actor -> nat, op: Op) returns (rank': Actor -> nat)
    requires Ranked(g, rank) && Permitted(g, op)
    ensures Ranked(Apply(g, op), rank')
  {
    match op
    case Wait(a, l) =>
      CycleIffReachable(g, rank, a, l);
      WaitKeepsRanked(g, rank, a, l);
      rank' := Lifted(g, rank, a, if l in g.holding then rank(g.holding[l]) + 1 else 0);
    case Acquire(a, l) =>
      rank' := x => if x == a then 0 else rank(x) + 1;
      var g' := Apply(g, op);
      forall x | Successor(g', x).Some? ensures rank'(Successor(g', x).value) < rank'(x) {
        assert x != a && (g.waiting[x] != l ==> Successor(g, x) == Successor(g', x));
      }
    case Release(a, l) =>
      rank' := rank;
      var g' := Apply(g, op);
      forall x | Successor(g', x).Some? ensures rank(Successor(g', x).value) < rank(x) {
        assert Successor(g, x) == Successor(g', x);
      }
  }

  ghost predicate IsRun(g: Graph, ops: seq<Op>)
    decreases |ops|
  {
    ops == [] || (Permitted(g, ops[0]) && IsRun(Apply(g, ops[0]), ops[1..]))
  }

  ghost function Final(g: Graph, ops: seq<Op>): Graph
    decreases |ops|
  {
    if ops == [] then g else Final(Apply(g, ops[0]), ops[1..])
  }

  lemma {:induction false} RunKeepsRanked(g: Graph, rank: Actor -> nat, ops: seq<Op>) returns (rank': Actor -> nat)
    requires Ranked(g, rank) && IsRun(g, ops)
    ensures Ranked(Final(g, ops), rank')
    decreases |ops|
  {
    if ops == [] { return rank; }
    var next := StepKeepsRanked(g, rank, ops[0]);
    rank' := RunKeepsRanked(Apply(g, ops[0]), next, ops[1..]);
  }

  // ---------------------------------------------------------------- the graph is the history of calls

  /** `a` acquired `l` and has not released it since. */
  ghost predicate Holds(calls: seq<Op>, a: Actor, l: Lockable) {
    exists i :: HoldsFrom(calls, i, a, l)
  }

  ghost predicate HoldsFrom(calls: seq<Op>, i: int, a: Actor, l: Lockable) {
    0 <= i < |calls| && calls[i] == Acquire(a, l) && Release(a, l) !in calls[i + 1..]
  }

  /** `a` set out to wait for `l` and has not acquired it since. */
  ghost predicate Waits(calls: seq<Op>, a: Actor, l: Lockable) {
    exists i :: WaitsFrom(calls, i, a, l)
  }

  ghost predicate WaitsFrom(calls: seq<Op>, i: int, a: Actor, l: Lockable) {
    0 <= i < |calls| && calls[i] == Wait(a, l) && Acquire(a, l) !in calls[i + 1..]
  }

  lemma HoldsStep(calls: seq<Op>, op: Op, a: Actor, l: Lockable)
    ensures Holds(calls + [op], a, l) <==> op == Acquire(a, l) || (Holds(calls, a, l) && op != Release(a, l))
  {
    var more := calls + [op];
    if op == Acquire(a, l) { assert HoldsFrom(more, |calls|, a, l); }
    forall i | 0 <= i < |calls| ensures HoldsFrom(more, i, a, l) <==> HoldsFrom(calls, i, a, l) && op != Release(a, l) {
      assert more[i + 1..] == calls[i + 1..] + [op];
    }
  }

  lemma WaitsStep(calls: seq<Op>, op: Op, a: Actor, l: Lockable)
    ensures Waits(calls + [op], a, l) <==> op == Wait(a, l) || (Waits(calls, a, l) && op != Acquire(a, l))
  {
    var more := calls + [op];
    if op == Wait(a, l) { assert WaitsFrom(more, |calls|, a, l); }
    forall i | 0 <= i < |calls| ensures WaitsFrom(more, i, a, l) <==> WaitsFrom(calls, i, a, l) && op != Acquire(a, l) {
      assert more[i + 1..] == calls[i + 1..] + [op];
    }
  }

  /** The graph records exactly who holds and who waits for what. */
  ghost predicate Records(g: Graph, calls: seq<Op>) {
    forall a, l ::
      && (Holds(calls, a, l) <==> l in g.holding && g.holding[l] == a)
      && (Waits(calls, a, l) <==> a in g.waiting && g.waiting[a] == l)
  }

  lemma StartRecords()
    ensures Records(Graph(map[], map[]), [])
  {}

  lemma WaitRecords(g: Graph, calls: seq<Op>, a: Actor, l: Lockable)
    requires Records(g, calls) && a !in g.waiting
    ensures Records(AddWait(g, a, l), calls + [Wait(a, l)])
  {
    forall b, m ensures (Holds(calls + [Wait(a, l)], b, m) <==> Holds(calls, b, m))
                     && (Waits(calls + [Wait(a, l)], b, m) <==> (b == a && m == l) || Waits(calls, b, m)) {
      HoldsStep(calls, Wait(a, l), b, m);
      WaitsStep(calls, Wait(a, l), b, m);
    }
  }

  lemma StepRecords(g: Graph, calls: seq<Op>, op: Op)
    requires Records(g, calls) && Permitted(g, op)
    ensures Records(Apply(g, op), calls + [op])
  {
    if op.Wait? {
      WaitRecords(g, calls, op.a, op.l);
    } else {
      var g' := Apply(g, op);
      forall b, m ensures (Holds(calls + [op], b, m) <==> m in g'.holding && g'.holding[m] == b)
                       && (Waits(calls + [op], b, m) <==> b in g'.waiting && g'.waiting[b] == m) {
        HoldsStep(calls, op, b, m);
        WaitsStep(calls, op, b, m);
      }
    }
  }

  lemma {:induction false} RunRecords(g: Graph, calls: seq<Op>, ops: seq<Op>)
    requires Records(g, calls) && IsRun(g, ops)
    ensures Records(Final(g, ops), calls + ops)
    decreases |ops|
  {
    if ops == [] {
      assert calls + ops == calls;
    } else {
      StepRecords(g, calls, ops[0]);
      RunRecords(Apply(g, ops[0]), calls + [ops[0]], ops[1..]);
      assert calls + [ops[0]] + ops[1..] == calls + ops;
    }
  }

  /** After any run the graph holds exactly what the calls say. */
  lemma GraphIsHistory(ops: seq<Op>)
    requires IsRun(Graph(map[], map[]), ops)
    ensures Records(Final(Graph(map[], map[]), ops), ops)
  {
    StartRecords();
    RunRecords(Graph(map[], map[]), [], ops);
    assert [] + ops == ops;
  }

  /** `b` holds what `a` waits for. */
  ghost predicate BlockedOn(calls: seq<Op>, a: Actor, b: Actor) {
    exists l :: Waits(calls, a, l) && Holds(calls, b, l)
  }

  /** Each actor of the path is blocked on the next. */
  ghost predicate BlockedPath(calls: seq<Op>, path: seq<Actor>) {
    forall i :: 0 < i < |path| ==> BlockedOn(calls, path[i - 1], path[i])
  }

  /** By the calls alone, some actors wait for each other in a circle. */
  ghost predicate Circle(calls: seq<Op>) {
    exists path: seq<Actor> :: |path| > 1 && path[0] == path[|path| - 1] && BlockedPath(calls, path)
  }

  lemma BlockedIsSuccessor(g: Graph, calls: seq<Op>, a: Actor, b: Actor)
    requires Records(g, calls)
    ensures BlockedOn(calls, a, b) <==> Successor(g, a) == Some(b)
  {
    if Successor(g, a) == Some(b) { assert Waits(calls, a, g.waiting[a]) && Holds(calls, b, g.waiting[a]); }
  }

  lemma {:induction false} PathFollows(g: Graph, calls: seq<Op>, path: seq<Actor>)
    requires Records(g, calls) && BlockedPath(calls, path) && |path| > 0
    ensures Follow(g, path[0], |path| - 1) == Some(path[|path| - 1])
    decreases |path|
  {
    if |path| > 1 {
      assert BlockedOn(calls, path[0], path[1]);
      BlockedIsSuccessor(g, calls, path[0], path[1]);
      var rest := path[1..];
      forall i | 0 < i < |rest| ensures BlockedOn(calls, rest[i - 1], rest[i]) {
        assert rest[i - 1] == path[i] && rest[i] == path[i + 1];
        assert BlockedOn(calls, path[i + 1 - 1], path[i + 1]);
      }
      PathFollows(g, calls, rest);
    }
  }

  lemma {:induction false} FollowIsPath(g: Graph, calls: seq<Op>, a: Actor, n: nat) returns (path: seq<Actor>)
    requires Records(g, calls) && Follow(g, a, n).Some?
    ensures |path| == n + 1 && path[0] == a && path[n] == Follow(g, a, n).value && BlockedPath(calls, path)
    decreases n
  {
    if n == 0 { return [a]; }
    var b := Successor(g, a).value;
    var rest := FollowIsPath(g, calls, b, n - 1);
    BlockedIsSuccessor(g, calls, a, b);
    path := [a] + rest;
    forall i | 0 < i < |path| ensures BlockedOn(calls, path[i - 1], path[i]) {
      if i > 1 { assert BlockedOn(calls, rest[i - 1 - 1], rest[i - 1]); }
    }
  }

  /** The recorded graph has a cycle exactly when the calls have actors waiting for each other in a circle. */
  lemma DeadlockIsCircle(g: Graph, calls: seq<Op>)
    requires Records(g, calls)
    ensures Deadlocked(g) <==> Circle(calls)
  {
    if Deadlocked(g) {
      var a: Actor, n: nat :| n > 0 && Follow(g, a, n) == Some(a);
      var path := FollowIsPath(g, calls, a, n);
    }
    if Circle(calls) {
      var path: seq<Actor> :| |path| > 1 && path[0] == path[|path| - 1] && BlockedPath(calls, path);
      PathFollows(g, calls, path);
    }
  }

  /** In the calls of a run no actors ever wait for each other in a circle. */
  lemma RunsNeverDeadlock(ops: seq<Op>)
    requires IsRun(Graph(map[], map[]), ops)
    ensures !Circle(ops)
  {
    var rank := RunKeepsRanked(Graph(map[], map[]), (x: Actor) => 0, ops);
    RankedNotDeadlocked(Final(Graph(map[], map[]), ops), rank);
    GraphIsHistory(ops);
    DeadlockIsCircle(Final(Graph(map[], map[]), ops), ops);
  }

  // ---------------------------------------------------------------- the detector

  class Detector {
    var waiting: map<Actor, Lockable>
    var holding: map<Lockable, Actor>
    ghost var calls: seq<Op>
    ghost var rank: Actor -> nat

    ghost function G(): Graph
      reads this
    {
      Graph(waiting, holding)
    }

    /** `calls` are those that did not panic. */
    ghost predicate Valid()
      reads this
    {
      Ranked(G(), rank) && Records(G(), calls)
    }

    constructor ()
      ensures Valid() && calls == []
    {
      waiting, holding, calls, rank := map[], map[], [], (x: Actor) => 0;
      new;
      StartRecords();
    }

    /** `hangman_check`: the walk from the holder of `start`; it ends because ranks fall. */
    method Check(start: Lockable, target: Actor) returns (found: bool)
      requires Valid()
      ensures found <==> start in holding && Reaches(G(), holding[start], target)
    {
      if start !in holding { return false; }
      var cur := holding[start];
      assert Follow(G(), cur, 0) == Some(cur);
      while cur != target
        invariant Reaches(G(), holding[start], target) <==> Reaches(G(), cur, target)
        decreases rank(cur)
      {
        if cur !in waiting || waiting[cur] !in holding {
          StuckAt(G(), cur, target);
          return false;
        }
        assert Successor(G(), cur) == Some(holding[waiting[cur]]);
        ReachesThroughSuccessor(G(), cur, target);
        cur := holding[waiting[cur]];
      }
      assert Follow(G(), cur, 0) == Some(target);
      return true;
    }

    /** The step of the specification that goes with a call that does not panic. */
    ghost method Note(op: Op)
      requires Valid() && Permitted(G(), op)
      modifies this`calls, this`rank
      ensures calls == old(calls) + [op] && Ranked(Apply(G(), op), rank) && Records(Apply(G(), op), calls)
    {
      StepRecords(G(), calls, op);
      rank := StepKeepsRanked(G(), rank, op);
      calls := calls + [op];
    }

    /** `hangman_wait`: panics (false) exactly when `a` waits already or the calls would have a circle. */
    method Wait(a: Actor, l: Lockable) returns (ok: bool)
      requires Valid()
      modifies this
      ensures Valid() && calls == if ok then old(calls) + [Op.Wait(a, l)] else old(calls)
      ensures ok <==> (forall m :: !Waits(old(calls), a, m)) && !Circle(old(calls) + [Op.Wait(a, l)])
    {
      if a in waiting {
        assert Waits(calls, a, waiting[a]);
        return false;
      }
      var found := Check(l, a);
      CycleIffReachable(G(), rank, a, l);
      WaitRecords(G(), calls, a, l);
      DeadlockIsCircle(AddWait(G(), a, l), calls + [Op.Wait(a, l)]);
      if found { return false; }
      Note(Op.Wait(a, l));
      waiting := waiting[a := l];
      return true;
    }

    /** `hangman_acquire`: panics exactly when `a` does not wait for `l` or someone holds it. */
    method Acquire(a: Actor, l: Lockable) returns (ok: bool)
      requires Valid()
      modifies this
      ensures Valid() && calls == if ok then old(calls) + [Op.Acquire(a, l)] else old(calls)
      ensures ok <==> Waits(old(calls), a, l) && forall b :: !Holds(old(calls), b, l)
    {
      if a !in waiting || waiting[a] != l { return false; }
      if l in holding {
        assert Holds(calls, holding[l], l);
        return false;
      }
      Note(Op.Acquire(a, l));
      holding := holding[l := a];
      waiting := waiting - {a};
      return true;
    }

    /** `hangman_release`: panics exactly when `a` waits for something or does not hold `l`. */
    method Release(a: Actor, l: Lockable) returns (ok: bool)
      requires Valid()
      modifies this
      ensures Valid() && calls == if ok then old(calls) + [Op.Release(a, l)] else old(calls)
      ensures ok <==> (forall m :: !Waits(old(calls), a, m)) && Holds(old(calls), a, l)
    {
      if a in waiting {
        assert Waits(calls, a, waiting[a]);
        return false;
      }
      if l !in holding || holding[l] != a { return false; }
      Note(Op.Release(a, l));
      holding := holding - {l};
      return true;
    }
  }

  lemma StuckAt(g: Graph, a: Actor, t: Actor)
    requires Successor(g, a) == None && a != t
    ensures !Reaches(g, a, t)
  {
    forall n: nat ensures Follow(g, a, n) != Some(t) {}
  }
}
