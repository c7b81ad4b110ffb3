/**
 The doubly linked thread list of `threadlist.c`. A list has a sentinel node at
 each end; a thread is known here by the one list node it embeds.
 */
module ThreadList {
  import opened Sequences

  class Node {
    var prev: Node?
    var next: Node?
    /** `tln_self` is NULL in the two sentinels only. */
    const isThread: bool

    constructor (isThread: bool)
      ensures prev == null && next == null && this.isThread == isThread
    {
      prev, next := null, null;
      this.isThread := isThread;
    }
  }

  // ---------------------------------------------------------------- chains of nodes

  /** The nodes at positions `i` and `i + 1` point at each other. */
  ghost predicate Joined(chain: seq<Node>, i: nat)
    requires i + 1 < |chain|
    reads chain
  {
    chain[i].next == chain[i + 1] && chain[i + 1].prev == chain[i]
  }

  /** Neighbours point at each other, and the ends point nowhere. */
  ghost predicate Linked(chain: seq<Node>)
    reads chain
  {
    && |chain| >= 2 && chain[0].prev == null && chain[|chain| - 1].next == null
    && (forall i :: 0 <= i < |chain| - 1 ==> Joined(chain, i))
  }

  ghost function Inserted(chain: seq<Node>, i: nat, x: Node): (r: seq<Node>)
    requires i <= |chain|
    ensures |r| == |chain| + 1
    ensures forall k :: 0 <= k < |r| ==> r[k] == if k < i then chain[k] else if k == i then x else chain[k - 1]
  {
    chain[..i] + [x] + chain[i..]
  }

  ghost function Removed(chain: seq<Node>, i: nat): (r: seq<Node>)
    requires i < |chain|
    ensures |r| == |chain| - 1
    ensures forall k :: 0 <= k < |r| ==> r[k] == if k < i then chain[k] else chain[k + 1]
  {
    chain[..i] + chain[i + 1..]
  }

  lemma InsertedDistinct(chain: seq<Node>, i: nat, x: Node)
    requires Distinct(chain) && x !in chain && i <= |chain|
    ensures Distinct(Inserted(chain, i, x))
  {
    assert forall k :: 0 <= k < |chain| ==> chain[k] in chain;
  }

  /** `threadlist_insertafternode` and `_insertbeforenode`: link a loose node in between two neighbours. */
  method Link(before: Node, addee: Node, after: Node, ghost chain: seq<Node>, ghost i: nat)
    requires Distinct(chain) && Linked(chain) && addee !in chain && addee.prev == null && addee.next == null
    requires 0 < i < |chain| && chain[i - 1] == before && chain[i] == after
    modifies before, addee, after
    ensures Linked(Inserted(chain, i, addee))
  {
    addee.prev := before;
    addee.next := after;
    addee.prev.next := addee;
    addee.next.prev := addee;
    ghost var now := Inserted(chain, i, addee);
    forall k | 0 <= k < |now| - 1 ensures Joined(now, k) {
      assert k < i - 1 ==> old(Joined(chain, k));
      assert k > i ==> old(Joined(chain, k - 1));
    }
  }

  /** `threadlist_removenode`. */
  method Unlink(tln: Node, ghost chain: seq<Node>, ghost i: nat)
    requires Distinct(chain) && Linked(chain) && 0 < i < |chain| - 1 && chain[i] == tln
    modifies tln, chain[i - 1], chain[i + 1]
    ensures Linked(Removed(chain, i)) && tln.prev == null && tln.next == null
  {
    assert Joined(chain, i - 1) && Joined(chain, i);
    tln.prev.next := tln.next;
    tln.next.prev := tln.prev;
    tln.prev := null;
    tln.next := null;
    ghost var now := Removed(chain, i);
    forall k | 0 <= k < |now| - 1 ensures Joined(now, k) {
      assert k < i - 1 ==> old(Joined(chain, k));
      assert k >= i ==> old(Joined(chain, k + 1));
    }
  }

  // ---------------------------------------------------------------- lists

  class List {
    const head: Node
    const tail: Node
    var count: nat
    /** The threads on the list, first to last. */
    ghost var nodes: seq<Node>

    ghost function Chain(): seq<Node>
      reads this
    {
      [head] + nodes + [tail]
    }

    ghost predicate Valid()
      reads this, Chain()
    {
      && Distinct(Chain()) && Linked(Chain())
      && !head.isThread && !tail.isThread
      && (forall k :: 0 <= k < |nodes| ==> nodes[k].isThread)
      && count == |nodes|
    }

    constructor ()
      ensures Valid() && nodes == [] && fresh(head) && fresh(tail)
    {
      head := new Node(false);
      tail := new Node(false);
      count, nodes := 0, [];
      new;
      head.next := tail;
      tail.prev := head;
    }

    /** Put a loose node at position `i`, between its two neighbours. */
    method Insert(before: Node, addee: Node, after: Node, ghost i: nat)
      requires Valid() && i <= |nodes| && Chain()[i] == before && Chain()[i + 1] == after
      requires addee !in Chain() && addee.prev == null && addee.next == null && addee.isThread
      modifies this`nodes, this`count, before, addee, after
      ensures Valid() && nodes == Inserted(old(nodes), i, addee)
    {
      ghost var chain := Chain();
      InsertedDistinct(chain, i + 1, addee);
      Link(before, addee, after, chain, i + 1);
      count := count + 1;
      nodes := Inserted(nodes, i, addee);
      assert Chain() == Inserted(chain, i + 1, addee);
    }

    /** Take the node at position `i` off the list. */
    method Detach(tln: Node, ghost i: nat)
      requires Valid() && i < |nodes| && nodes[i] == tln
      modifies this`nodes, this`count, tln, Chain()[i], Chain()[i + 2]
      ensures Valid() && nodes == Removed(old(nodes), i) && tln.prev == null && tln.next == null
    {
      ghost var chain := Chain();
      assert chain[i + 1] == tln;
      Unlink(tln, chain, i + 1);
      count := count - 1;
      nodes := Removed(nodes, i);
      assert Chain() == Removed(chain, i + 1);
    }

    ghost predicate Loose(addee: Node)
      reads this, addee
    {
      addee !in Chain() && addee.prev == null && addee.next == null && addee.isThread
    }

    /** `threadlist_addhead`. */
    method AddHead(t: Node)
      requires Valid() && Loose(t)
      modifies this`nodes, this`count, t, head, Chain()[1]
      ensures Valid() && nodes == [t] + old(nodes)
    {
      assert Joined(Chain(), 0);
      Insert(head, t, head.next, 0);
    }

    /** `threadlist_addtail`. */
    method AddTail(t: Node)
      requires Valid() && Loose(t)
      modifies this`nodes, this`count, t, tail, Chain()[|nodes|]
      ensures Valid() && nodes == old(nodes) + [t]
    {
      assert Joined(Chain(), |nodes|);
      Insert(tail.prev, t, tail, |nodes|);
    }

    /** `threadlist_insertafter`: `onlist` is the thread at position `i`. */
    method InsertAfter(onlist: Node, addee: Node, ghost i: nat)
      requires Valid() && Loose(addee) && i < |nodes| && nodes[i] == onlist
      modifies this`nodes, this`count, addee, onlist, Chain()[i + 2]
      ensures Valid() && nodes == old(nodes[..i + 1] + [addee] + nodes[i + 1..])
    {
      assert Joined(Chain(), i + 1);
      Insert(onlist, addee, onlist.next, i + 1);
    }

    /** `threadlist_insertbefore`. */
    method InsertBefore(addee: Node, onlist: Node, ghost i: nat)
      requires Valid() && Loose(addee) && i < |nodes| && nodes[i] == onlist
      modifies this`nodes, this`count, addee, onlist, Chain()[i]
      ensures Valid() && nodes == old(nodes[..i] + [addee] + nodes[i..])
    {
      assert Joined(Chain(), i);
      Insert(onlist.prev, addee, onlist, i);
    }

    /** `threadlist_remhead`: null exactly when the list is empty. */
    method RemHead() returns (t: Node?)
      requires Valid()
      modifies this`nodes, this`count, head, Chain()[1], Chain()[|Chain()| - 1], Chain()[if nodes == [] then 0 else 2]
      ensures Valid() && (t == null <==> old(nodes) == [])
      ensures t == null ==> nodes == []
      ensures t != null ==> t == old(nodes[0]) && nodes == old(nodes[1..]) && t.prev == null && t.next == null
    {
      assert Joined(Chain(), 0) && (nodes != [] ==> Joined(Chain(), 1));
      var tln := head.next;
      if tln.next == null { return null; }
      Detach(tln, 0);
      return tln;
    }

    /** `threadlist_remtail`. */
    method RemTail() returns (t: Node?)
      requires Valid()
      modifies this`nodes, this`count, tail, Chain()[|nodes|], Chain()[if nodes == [] then 0 else |nodes| - 1]
      ensures Valid() && (t == null <==> old(nodes) == [])
      ensures t == null ==> nodes == []
      ensures t != null ==>
                t == old(nodes[|nodes| - 1]) && nodes == old(nodes[..|nodes| - 1]) && t.prev == null && t.next == null
    {
      assert Joined(Chain(), |nodes|) && (nodes != [] ==> Joined(Chain(), |nodes| - 1));
      var tln := tail.prev;
      if tln.prev == null { return null; }
      Detach(tln, |nodes| - 1);
      return tln;
    }

    /** `threadlist_remove`. */
    method Remove(t: Node, ghost i: nat)
      requires Valid() && i < |nodes| && nodes[i] == t
      modifies this`nodes, this`count, t, Chain()[i], Chain()[i + 2]
      ensures Valid() && nodes == old(nodes[..i] + nodes[i + 1..]) && t.prev == null && t.next == null
    {
      Detach(t, i);
    }

    /** `THREADLIST_FORALL` sees the threads first to last. */
    method Forall() returns (visited: seq<Node>)
      requires Valid()
      ensures visited == nodes
    {
      visited := [];
      assert Joined(Chain(), 0);
      var cur: Node := head.next;
      while cur.isThread
        invariant |visited| <= |nodes| && visited == nodes[..|visited|] && cur == Chain()[|visited| + 1]
        decreases |nodes| - |visited|
      {
        assert Joined(Chain(), |visited| + 1);
        visited := visited + [cur];
        cur := cur.next;
      }
    }

    /** `THREADLIST_FORALL_REV` sees them last to first: the mirror image. */
    method ForallReverse() returns (visited: seq<Node>)
      requires Valid()
      ensures |visited| == |nodes| && forall k :: 0 <= k < |nodes| ==> visited[k] == nodes[|nodes| - 1 - k]
    {
      visited := [];
      assert Joined(Chain(), |nodes|);
      var cur: Node := tail.prev;
      while cur.isThread
        invariant |visited| <= |nodes| && cur == Chain()[|nodes| - |visited|]
        invariant forall k :: 0 <= k < |visited| ==> visited[k] == nodes[|nodes| - 1 - k]
        decreases |nodes| - |visited|
      {
        assert Joined(Chain(), |nodes| - |visited| - 1);
        visited := visited + [cur];
        cur := cur.prev;
      }
    }
  }

  /** No node is on both lists. */
  ghost predicate Disjoint(l: List, m: List)
    reads l, m
  {
    l != m && forall i, j :: 0 <= i < |l.Chain()| && 0 <= j < |m.Chain()| ==> l.Chain()[i] != m.Chain()[j]
  }

  /** One step of moving threads between lists: each operation leaves the other, disjoint list as it was. */
  method MoveHeadToTail(source: List, target: List) returns (moved: bool)
    requires source.Valid() && target.Valid() && Disjoint(source, target)
    modifies source, target, source.Chain(), target.Chain()
    ensures source.Valid() && target.Valid()
    ensures moved <==> old(source.nodes) != []
    ensures moved ==> source.nodes == old(source.nodes[1..]) && target.nodes == old(target.nodes + [source.nodes[0]])
    ensures !moved ==> source.nodes == [] && target.nodes == old(target.nodes)
  {
    ghost var chain, other := source.Chain(), target.Chain();
    assert forall k :: 0 <= k < |chain| ==> chain[k] in chain;
    assert forall k :: 0 <= k < |other| ==> other[k] in other && other[k] !in chain;
    var t := source.RemHead();
    assert target.Valid();
    if t == null { return false; }
    assert t == chain[1] && source.Chain() == Removed(chain, 1);
    target.AddTail(t);
    assert source.Valid();
    return true;
  }
}
