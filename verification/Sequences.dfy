/** Sequences without repetition. */
module Sequences {

  ghost predicate Distinct<T>(q: seq<T>) {
    forall i, j :: 0 <= i < j < |q| ==> q[i] != q[j]
  }

  /** The elements of a sequence without repetition: as many as it is long. */
  ghost function Elements<T(!new)>(q: seq<T>): (s: set<T>)
    requires Distinct(q)
    ensures |s| == |q| && forall x :: x in s <==> x in q
  {
    if q == [] then {}
    else
      assert q[0] !in q[1..];
      assert forall x :: x in q <==> x == q[0] || x in q[1..];
      Elements(q[1..]) + {q[0]}
  }

  // ---------------------------------------------------------------- queues in the order of a log

  /** The last position of `a` in the log, or -1. */
  ghost function LastTime<A>(log: seq<A>, a: A): (i: int)
    ensures -1 <= i < |log|
    decreases |log|
  {
    if log == [] then -1 else if log[|log| - 1] == a then |log| - 1 else LastTime(log[..|log| - 1], a)
  }

  lemma LastTimeStep<A>(log: seq<A>, a: A, b: A)
    ensures LastTime(log + [b], a) == if a == b then |log| else LastTime(log, a)
  {
    assert (log + [b])[..|log|] == log;
  }

  /** Members of the queue stand in the order of their last `act` in the log. */
  ghost predicate InOrder<A>(q: seq<nat>, log: seq<A>, act: nat -> A) {
    forall x, y :: 0 <= x < y < |q| ==> LastTime(log, act(q[x])) < LastTime(log, act(q[y]))
  }

  lemma OthersKeepOrder<A>(q: seq<nat>, log: seq<A>, act: nat -> A, b: A)
    requires InOrder(q, log, act) && forall x :: 0 <= x < |q| ==> act(q[x]) != b
    ensures InOrder(q, log + [b], act)
  {
    forall x | 0 <= x < |q| ensures LastTime(log + [b], act(q[x])) == LastTime(log, act(q[x])) {
      LastTimeStep(log, act(q[x]), b);
    }
  }

  lemma JoinsInOrder<A>(q: seq<nat>, log: seq<A>, act: nat -> A, t: nat)
    requires InOrder(q, log, act) && forall x :: 0 <= x < |q| ==> act(q[x]) != act(t)
    ensures InOrder(q + [t], log + [act(t)], act)
  {
    OthersKeepOrder(q, log, act, act(t));
    LastTimeStep(log, act(t), act(t));
    forall x | 0 <= x < |q| ensures LastTime(log + [act(t)], act(q[x])) < |log| { LastTimeStep(log, act(q[x]), act(t)); }
  }

  /** What leaves from the front came before what stays. */
  lemma FrontBeforeRest<A>(q: seq<nat>, log: seq<A>, act: nat -> A, n: nat, t: nat, u: nat)
    requires InOrder(q, log, act) && n <= |q| && t in q && t !in q[n..] && u in q[n..]
    ensures LastTime(log, act(t)) < LastTime(log, act(u))
  {
    var x :| 0 <= x < |q| && q[x] == t;
    var y :| 0 <= y < |q[n..]| && q[n..][y] == u;
    forall z | n <= z < |q| ensures q[z] in q[n..] { assert q[n..][z - n] == q[z]; }
    assert x < n <= n + y && q[n + y] == u;
  }
}
