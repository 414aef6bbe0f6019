/** Doubly linked lists whose links live in the elements, as the worker's connections and the pending
    RPC requests are kept. */
module IntrusiveList {

  class Node<T> {
    var data: T
    var next: Node?<T>
    var prev: Node?<T>

    constructor (data: T)
      ensures this.data == data && next == null && prev == null
    {
      this.data := data;
      next, prev := null, null;
    }
  }

  /** The list without the element at position `k`. */
  function RemoveAt<T>(s: seq<T>, k: nat): seq<T>
    requires k < |s|
  {
    s[..k] + s[k + 1..]
  }

  ghost predicate Distinct<T>(s: seq<T>) {
    forall i, j :: 0 <= i < j < |s| ==> s[i] != s[j]
  }

  ghost function AtOrNull<T>(nodes: seq<Node<T>>, i: int): Node?<T> {
    if 0 <= i < |nodes| then nodes[i] else null
  }

  class List<T> {
    var head: Node?<T>
    ghost var nodes: seq<Node<T>>

    /** The links spell the sequence of nodes, in both directions. */
    ghost predicate Valid()
      reads this, nodes
    {
      && Distinct(nodes) && head == AtOrNull(nodes, 0)
      && (forall i {:trigger nodes[i].prev} :: 0 <= i < |nodes| ==> nodes[i].prev == AtOrNull(nodes, i - 1))
      && (forall i {:trigger nodes[i].next} :: 0 <= i < |nodes| ==> nodes[i].next == AtOrNull(nodes, i + 1))
    }

    /** What the nodes carry, in order. */
    ghost function Contents(): (c: seq<T>)
      reads this, nodes
      ensures |c| == |nodes|
    {
      seq(|nodes|, i requires 0 <= i < |nodes| reads this, nodes => nodes[i].data)
    }

    constructor ()
      ensures Valid() && nodes == []
    {
      head := null;
      nodes := [];
    }

    method PushFront(n: Node<T>)
      requires Valid() && n !in nodes
      modifies this, nodes`prev, n`next, n`prev
      ensures Valid() && nodes == [n] + old(nodes)
      ensures Contents() == [n.data] + old(Contents())
    {
      n.next := head;
      n.prev := null;
      if head != null {
        head.prev := n;
      }
      head := n;
      nodes := [n] + nodes;
      assert forall i :: 0 < i < |nodes| ==> nodes[i] == old(nodes)[i - 1];
    }

    /** Let the neighbours of a node point past it. */
    method Relink(n: Node<T>, ghost k: nat)
      requires Valid() && k < |nodes| && nodes[k] == n
      modifies `head, nodes`next, nodes`prev
      ensures head == if k == 0 then AtOrNull(nodes, 1) else AtOrNull(nodes, 0)
      ensures forall j {:trigger nodes[j].prev} :: 0 <= j < |nodes| && j != k ==>
                nodes[j].prev == AtOrNull(nodes, if j == k + 1 then k - 1 else j - 1)
      ensures forall j {:trigger nodes[j].next} :: 0 <= j < |nodes| && j != k ==>
                nodes[j].next == AtOrNull(nodes, if j == k - 1 then k + 1 else j + 1)
    {
      hide Distinct;
      RemoveDistinct(nodes, k);
      assert n.prev == AtOrNull(nodes, k - 1) && n.next == AtOrNull(nodes, k + 1);
      if n.prev != null {
        n.prev.next := n.next;
      } else {
        head := n.next;
      }
      if n.next != null {
        n.next.prev := n.prev;
      }
    }

    /** Take a node of the list out of the links. */
    method Unlink(n: Node<T>) returns (ghost k: nat)
      requires Valid() && n in nodes
      modifies this, nodes`next, nodes`prev
      ensures Valid() && k < |old(nodes)| && old(nodes)[k] == n
      ensures nodes == RemoveAt(old(nodes), k) && n !in nodes
    {
      hide Distinct;
      k := Find(n);
      RemoveDistinct(nodes, k);
      Relink(n, k);
      ghost var was := nodes;
      nodes := RemoveAt(nodes, k);
      assert |nodes| == |was| - 1;
      forall i | 0 <= i < |nodes|
        ensures nodes[i].prev == AtOrNull(nodes, i - 1) && nodes[i].next == AtOrNull(nodes, i + 1)
      {
        assert nodes[i] == was[if i < k then i else i + 1];
      }
    }

    /** Take a node out of the list: what the others carry keeps its order. */
    method Remove(n: Node<T>) returns (ghost k: nat)
      requires Valid() && n in nodes
      modifies this, nodes`next, nodes`prev
      ensures Valid() && k < |old(nodes)| && old(nodes)[k] == n
      ensures nodes == RemoveAt(old(nodes), k) && n !in nodes
      ensures Contents() == RemoveAt(old(Contents()), k)
    {
      ghost var was := Contents();
      k := Unlink(n);
      hide Valid, Distinct;
      assert Contents() == RemoveAt(was, k);
    }

    /** Change what a node of the list carries. */
    method Update(n: Node<T>, data: T) returns (ghost k: nat)
      requires Valid() && n in nodes
      modifies n`data
      ensures Valid() && n.data == data && k < |nodes| && nodes[k] == n
      ensures Contents() == old(Contents())[k := data]
    {
      k :| 0 <= k < |nodes| && nodes[k] == n;
      n.data := data;
    }

    /** Where a node of the list is. */
    lemma Find(n: Node<T>) returns (k: nat)
      requires n in nodes
      ensures k < |nodes| && nodes[k] == n && Contents()[k] == n.data
    {
      k :| 0 <= k < |nodes| && nodes[k] == n;
    }

    /** The node at a position, counted from the head; null past the end. */
    method At(k: nat) returns (n: Node?<T>)
      requires Valid()
      ensures n == if k < |nodes| then nodes[k] else null
    {
      n := head;
      var i := 0;
      while i < k && n != null
        invariant i <= k && n == if i < |nodes| then nodes[i] else null
      {
        n := n.next;
        i := i + 1;
      }
    }
  }

  lemma RemoveDistinct<T>(s: seq<T>, k: nat)
    requires Distinct(s) && k < |s|
    ensures Distinct(RemoveAt(s, k)) && s[k] !in RemoveAt(s, k)
    ensures forall i :: 0 <= i < |s| && i != k ==> s[i] != s[k]
    ensures k > 0 ==> forall i :: 0 <= i < |s| && i != k - 1 ==> s[i] != s[k - 1]
    ensures k + 1 < |s| ==> forall i :: 0 <= i < |s| && i != k + 1 ==> s[i] != s[k + 1]
  {
  }
}
