/** Lists of threads (thread/threadlist.c, include/threadlist.h): doubly linked, with a node at each
    end that is always there. */
module ThreadList {
  import opened Lib

  class Thread {
    const listnode: Node

    /** threadlistnode_init: the node is on no list and knows its thread. */
    constructor ()
      ensures fresh(listnode) && listnode.Unlinked() && listnode.self == this
    {
      listnode := new Node();
      new;
      listnode.self := this;
    }
  }

  class Node {
    var prev: Node?
    var next: Node?
    var self: Thread?

    constructor ()
      ensures prev == null && next == null && self == null
    {
      prev, next, self := null, null, null;
    }

    ghost predicate Unlinked()
      reads this
    {
      prev == null && next == null
    }
  }

  function NodeAt(nodes: seq<Node>, i: nat): Node
    requires i < |nodes|
  {
    nodes[i]
  }

  /** Node i and the one after it point to each other. */
  ghost predicate Joined(nodes: seq<Node>, i: nat)
    requires i + 1 < |nodes|
    reads nodes
  {
    nodes[i].next == nodes[i + 1] && nodes[i + 1].prev == nodes[i]
  }

  /** The nodes are chained in both directions, and the chain ends at both ends. */
  ghost predicate Chain(nodes: seq<Node>)
    reads nodes
  {
    && |nodes| >= 2 && Distinct(nodes)
    && nodes[0].prev == null && nodes[|nodes| - 1].next == null
    && forall i: nat :: i + 1 < |nodes| ==> Joined(nodes, i)
  }

  function Insert<T>(q: seq<T>, i: nat, x: T): (r: seq<T>)
    requires i <= |q|
    ensures |r| == |q| + 1 && r[i] == x
    ensures forall j :: 0 <= j < i ==> r[j] == q[j]
    ensures forall j {:trigger r[j]} :: i < j <= |q| ==> r[j] == q[j - 1]
  {
    q[..i] + [x] + q[i..]
  }

  function Delete<T>(q: seq<T>, i: nat): (r: seq<T>)
    requires i < |q|
    ensures |r| == |q| - 1
    ensures forall j :: 0 <= j < i ==> r[j] == q[j]
    ensures forall j {:trigger r[j]} :: i <= j < |r| ==> r[j] == q[j + 1]
  {
    q[..i] + q[i + 1..]
  }

  /** threadlist_insertafternode, where onlist is node i. */
  method InsertAfterNode(onlist: Node, t: Thread, ghost nodes: seq<Node>, ghost i: nat)
    requires Chain(nodes) && i + 1 < |nodes| && onlist == nodes[i]
    requires t.listnode.Unlinked() && t.listnode !in nodes
    modifies NodeAt(nodes, i)`next, NodeAt(nodes, i + 1)`prev, t.listnode`prev, t.listnode`next
    ensures Chain(Insert(nodes, i + 1, t.listnode))
  {
    hide Insert;
    assert Joined(nodes, i);
    var addee := t.listnode;
    addee.prev := onlist;
    addee.next := onlist.next;
    addee.prev.next := addee;
    addee.next.prev := addee;
    ghost var more := Insert(nodes, i + 1, addee);
    forall k: nat | k + 1 < |more|
      ensures Joined(more, k)
    {
      if k < i {
        assert old(Joined(nodes, k));
      } else if k > i + 1 {
        assert old(Joined(nodes, k - 1));
      }
    }
  }

  /** threadlist_insertbeforenode, where onlist is node i + 1. */
  method InsertBeforeNode(t: Thread, onlist: Node, ghost nodes: seq<Node>, ghost i: nat)
    requires Chain(nodes) && i + 1 < |nodes| && onlist == nodes[i + 1]
    requires t.listnode.Unlinked() && t.listnode !in nodes
    modifies NodeAt(nodes, i)`next, NodeAt(nodes, i + 1)`prev, t.listnode`prev, t.listnode`next
    ensures Chain(Insert(nodes, i + 1, t.listnode))
  {
    hide Insert;
    assert Joined(nodes, i);
    var addee := t.listnode;
    addee.prev := onlist.prev;
    addee.next := onlist;
    addee.prev.next := addee;
    addee.next.prev := addee;
    ghost var more := Insert(nodes, i + 1, addee);
    forall k: nat | k + 1 < |more|
      ensures Joined(more, k)
    {
      if k < i {
        assert old(Joined(nodes, k));
      } else if k > i + 1 {
        assert old(Joined(nodes, k - 1));
      }
    }
  }

  /** threadlist_removenode, where tln is node i. */
  method RemoveNode(tln: Node, ghost nodes: seq<Node>, ghost i: nat)
    requires Chain(nodes) && 0 < i < |nodes| - 1 && tln == nodes[i]
    modifies NodeAt(nodes, i - 1)`next, NodeAt(nodes, i)`prev, NodeAt(nodes, i)`next, NodeAt(nodes, i + 1)`prev
    ensures Chain(Delete(nodes, i)) && tln.Unlinked()
  {
    hide Delete;
    assert Joined(nodes, i - 1) && Joined(nodes, i);
    tln.prev.next := tln.next;
    tln.next.prev := tln.prev;
    tln.prev := null;
    tln.next := null;
    ghost var less := Delete(nodes, i);
    forall k: nat | k + 1 < |less|
      ensures Joined(less, k)
    {
      if k < i - 1 {
        assert old(Joined(nodes, k));
      } else if k > i - 1 {
        assert old(Joined(nodes, k + 1));
      }
    }
  }

  /** The nodes of a list: its own two, and between them those of its threads. */
  function NodesOf(head: Node, threads: seq<Thread>, tail: Node): (nodes: seq<Node>)
    ensures |nodes| == |threads| + 2 && nodes[0] == head && nodes[|threads| + 1] == tail
    ensures forall i :: 0 <= i < |threads| ==> nodes[i + 1] == threads[i].listnode
  {
    [head] + seq(|threads|, i requires 0 <= i < |threads| => threads[i].listnode) + [tail]
  }

  lemma NodesInsert(head: Node, threads: seq<Thread>, tail: Node, i: nat, t: Thread)
    requires i <= |threads|
    ensures NodesOf(head, Insert(threads, i, t), tail) == Insert(NodesOf(head, threads, tail), i + 1, t.listnode)
  {
    hide NodesOf, Insert;
    var a, b := NodesOf(head, Insert(threads, i, t), tail), Insert(NodesOf(head, threads, tail), i + 1, t.listnode);
    forall k | 0 <= k < |a|
      ensures a[k] == b[k]
    {
      if 0 < k < |a| - 1 {
        assert a[k] == Insert(threads, i, t)[k - 1].listnode;
        assert k > i + 1 ==> b[k] == NodesOf(head, threads, tail)[k - 1];
      }
    }
  }

  lemma NodesDelete(head: Node, threads: seq<Thread>, tail: Node, i: nat)
    requires i < |threads|
    ensures NodesOf(head, Delete(threads, i), tail) == Delete(NodesOf(head, threads, tail), i + 1)
  {
    hide NodesOf, Delete;
    var a, b := NodesOf(head, Delete(threads, i), tail), Delete(NodesOf(head, threads, tail), i + 1);
    forall k | 0 <= k < |a|
      ensures a[k] == b[k]
    {
      if 0 < k < |a| - 1 {
        assert a[k] == Delete(threads, i)[k - 1].listnode;
        assert k >= i + 1 ==> b[k] == NodesOf(head, threads, tail)[k + 1];
      }
    }
  }

  lemma ChainDistinct(nodes: seq<Node>)
    requires Chain(nodes)
    ensures Distinct(nodes)
  {
  }

  lemma DeletedIsNotIn(nodes: seq<Node>, i: nat)
    requires Distinct(nodes) && i < |nodes|
    ensures nodes[i] !in Delete(nodes, i)
  {
    hide Delete;
    var less := Delete(nodes, i);
    forall k | 0 <= k < |less|
      ensures less[k] != nodes[i]
    {
      assert k >= i ==> less[k] == nodes[k + 1];
    }
  }

  class List {
    const head: Node
    const tail: Node
    var count: nat
    ghost var threads: seq<Thread>

    ghost function Nodes(): (nodes: seq<Node>)
      reads this
      ensures |nodes| == |threads| + 2 && nodes[0] == head && nodes[|threads| + 1] == tail
      ensures forall i :: 0 <= i < |threads| ==> nodes[i + 1] == threads[i].listnode
    {
      NodesOf(head, threads, tail)
    }

    ghost predicate Valid()
      reads this, Nodes()
    {
      && count == |threads| && Chain(Nodes())
      && head.self == null && tail.self == null
      && forall i :: 0 <= i < |threads| ==> threads[i].listnode.self == threads[i]
    }

    /** A thread that can be put on the list: it is on none. */
    ghost predicate Spare(t: Thread)
      reads this, t.listnode
    {
      t.listnode.Unlinked() && t.listnode.self == t && t.listnode !in Nodes()
    }

    /** threadlist_init. */
    constructor ()
      ensures Valid() && threads == [] && fresh(head) && fresh(tail)
    {
      head := new Node();
      tail := new Node();
      count, threads := 0, [];
      new;
      head.next := tail;
      tail.prev := head;
      assert Joined(Nodes(), 0);
    }

    method IsEmpty() returns (b: bool)
      requires Valid()
      ensures b <==> threads == []
    {
      b := count == 0;
    }

    method AddHead(t: Thread)
      requires Valid() && Spare(t)
      modifies this, Nodes(), t.listnode
      ensures Valid() && threads == [t] + old(threads)
    {
      hide Chain, NodesOf;
      InsertAfterNode(head, t, Nodes(), 0);
      count := count + 1;
      NodesInsert(head, threads, tail, 0, t);
      threads := Insert(threads, 0, t);
    }

    method AddTail(t: Thread)
      requires Valid() && Spare(t)
      modifies this, Nodes(), t.listnode
      ensures Valid() && threads == old(threads) + [t]
    {
      hide Chain, NodesOf;
      InsertBeforeNode(t, tail, Nodes(), |threads|);
      count := count + 1;
      NodesInsert(head, threads, tail, |threads|, t);
      threads := Insert(threads, |threads|, t);
    }

    method InsertAfter(onlist: Thread, addee: Thread, ghost i: nat)
      requires Valid() && Spare(addee) && i < |threads| && threads[i] == onlist
      modifies this, Nodes(), addee.listnode
      ensures Valid() && threads == old(threads[..i + 1] + [addee] + threads[i + 1..])
    {
      hide Chain, NodesOf;
      InsertAfterNode(onlist.listnode, addee, Nodes(), i + 1);
      count := count + 1;
      NodesInsert(head, threads, tail, i + 1, addee);
      threads := Insert(threads, i + 1, addee);
    }

    method InsertBefore(addee: Thread, onlist: Thread, ghost i: nat)
      requires Valid() && Spare(addee) && i < |threads| && threads[i] == onlist
      modifies this, Nodes(), addee.listnode
      ensures Valid() && threads == old(threads[..i] + [addee] + threads[i..])
    {
      hide Chain, NodesOf;
      InsertBeforeNode(addee, onlist.listnode, Nodes(), i);
      count := count + 1;
      NodesInsert(head, threads, tail, i, addee);
      threads := Insert(threads, i, addee);
    }

    /** Takes off the first thread; null if there is none. */
    method RemHead() returns (t: Thread?)
      requires Valid()
      modifies this, Nodes()
      ensures Valid()
      ensures old(threads) == [] ==> t == null && threads == []
      ensures old(threads) != [] ==> t == old(threads)[0] && threads == old(threads)[1..] && Spare(t)
    {
      hide NodesOf, Distinct;
      assert Joined(Nodes(), 0);
      var tln := head.next;
      if |threads| > 0 {
        assert Joined(Nodes(), 1);
      }
      if tln.next == null {
        return null;
      }
      RemoveAt(0, tln);
      return tln.self;
    }

    /** Takes off the last thread; null if there is none. */
    method RemTail() returns (t: Thread?)
      requires Valid()
      modifies this, Nodes()
      ensures Valid()
      ensures old(threads) == [] ==> t == null && threads == []
      ensures old(threads) != [] ==>
                var last := |old(threads)| - 1;
                t == old(threads)[last] && threads == old(threads)[..last] && Spare(t)
    {
      hide NodesOf, Distinct;
      assert Joined(Nodes(), |threads|);
      var tln := tail.prev;
      if |threads| > 0 {
        assert Joined(Nodes(), |threads| - 1);
      }
      if tln.prev == null {
        return null;
      }
      RemoveAt(|threads| - 1, tln);
      return tln.self;
    }

    method Remove(t: Thread, ghost i: nat)
      requires Valid() && i < |threads| && threads[i] == t
      modifies this, Nodes()
      ensures Valid() && threads == old(threads[..i] + threads[i + 1..]) && Spare(t)
    {
      RemoveAt(i, t.listnode);
    }

    /** Takes off the node of thread i. */
    method RemoveAt(ghost i: nat, tln: Node)
      requires Valid() && i < |threads| && tln == threads[i].listnode
      modifies this, Nodes()
      ensures Valid() && threads == old(threads[..i] + threads[i + 1..])
      ensures tln.self == old(threads)[i] && Spare(old(threads)[i])
    {
      hide Chain, NodesOf;
      assert Distinct(Nodes()) by { ChainDistinct(Nodes()); }
      RemoveNode(tln, Nodes(), i + 1);
      count := count - 1;
      DeletedIsNotIn(Nodes(), i + 1);
      NodesDelete(head, threads, tail, i);
      threads := Delete(threads, i);
    }

    /** THREADLIST_FORALL visits the threads in order. */
    method ForAll() returns (visited: seq<Thread>)
      requires Valid()
      ensures visited == threads
    {
      hide NodesOf, Distinct;
      visited := [];
      assert Joined(Nodes(), 0);
      var itervar := head.next.self;
      while itervar != null
        invariant |visited| <= |threads| && visited == threads[..|visited|]
        invariant itervar == if |visited| == |threads| then null else threads[|visited|]
        decreases |threads| - |visited|
      {
        assert Joined(Nodes(), |visited| + 1);
        visited := visited + [itervar];
        itervar := itervar.listnode.next.self;
      }
    }

    /** THREADLIST_FORALL_REV visits them from last to first. */
    method ForAllRev() returns (visited: seq<Thread>)
      requires Valid()
      ensures |visited| == |threads| && forall i :: 0 <= i < |visited| ==> visited[i] == threads[|threads| - 1 - i]
    {
      hide NodesOf, Distinct;
      visited := [];
      assert Joined(Nodes(), |threads|);
      var itervar := tail.prev.self;
      while itervar != null
        invariant |visited| <= |threads| && forall i :: 0 <= i < |visited| ==> visited[i] == threads[|threads| - 1 - i]
        invariant itervar == if |visited| == |threads| then null else threads[|threads| - 1 - |visited|]
        decreases |threads| - |visited|
      {
        assert Joined(Nodes(), |threads| - 1 - |visited|);
        visited := visited + [itervar];
        itervar := itervar.listnode.prev.self;
      }
    }
  }
}
