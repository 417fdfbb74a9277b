/**
 base/linked_list.h: an intrusive circular doubly linked list with a root node.
 The nodes know nothing of the list they are in, so the list and the position are
 ghost parameters of the operations.
 */
module LinkedList {
  import opened Common

  /** Every node of the chain points to the one after it, and back. */
  ghost predicate Linked(chain: seq<LinkNode>)
    reads chain
  {
    forall i :: 0 <= i < |chain| - 1 ==> chain[i].next == chain[i+1] && chain[i+1].previous == chain[i]
  }

  /** A chain goes once round the ring: only its two ends coincide. */
  ghost predicate IsRing(chain: seq<LinkNode>) {
    && |chain| >= 2 && chain[0] == chain[|chain|-1]
    && (forall i, j :: 0 <= i < j < |chain| - 1 ==> chain[i] != chain[j])
  }

  function Spliced(chain: seq<LinkNode>, k: nat, node: LinkNode): seq<LinkNode>
    requires k < |chain|
  {
    chain[..k+1] + [node] + chain[k+1..]
  }

  /** The chain is linked but for the gap between k and k + 1. */
  ghost predicate LinkedBut(chain: seq<LinkNode>, k: nat)
    reads chain
  {
    forall i :: 0 <= i < |chain| - 1 && i != k ==> chain[i].next == chain[i+1] && chain[i+1].previous == chain[i]
  }

  lemma SpliceLinks(chain: seq<LinkNode>, k: nat, node: LinkNode)
    requires k < |chain| - 1 && IsRing(chain) && node !in chain && LinkedBut(chain, k)
    requires node.next == chain[k+1] && node.previous == chain[k]
    requires chain[k].next == node && chain[k+1].previous == node
    ensures IsRing(Spliced(chain, k, node)) && Linked(Spliced(chain, k, node))
  {
    var now := Spliced(chain, k, node);
    assert forall i :: 0 <= i <= k ==> now[i] == chain[i];
    assert forall i :: k + 1 < i < |now| ==> now[i] == chain[i-1];
  }

  lemma RootOnlyAtEnds(chain: seq<LinkNode>)
    requires IsRing(chain)
    ensures forall i :: 0 < i < |chain| - 1 ==> chain[i] != chain[0]
  {
  }

  lemma ChainSpliced(root: LinkNode, nodes: seq<LinkNode>, k: nat, node: LinkNode)
    requires k <= |nodes|
    ensures [root] + (nodes[..k] + [node] + nodes[k..]) + [root] == Spliced([root] + nodes + [root], k, node)
  {
  }

  lemma ChainUnspliced(root: LinkNode, nodes: seq<LinkNode>, k: nat)
    requires k < |nodes| && IsRing([root] + nodes + [root])
    ensures
      var chain := [root] + (nodes[..k] + nodes[k+1..]) + [root];
      && Spliced(chain, k, nodes[k]) == [root] + nodes + [root]
      && nodes[k] !in chain && IsRing(chain)
  {
    var chain, was := [root] + (nodes[..k] + nodes[k+1..]) + [root], [root] + nodes + [root];
    assert forall i :: 0 <= i <= k ==> chain[i] == was[i];
    assert forall i :: k < i < |chain| ==> chain[i] == was[i+1];
    assert was[k+1] == nodes[k];
  }

  /** Only the gap at k lies after chain[k] or before chain[k+1]. */
  lemma RingGap(chain: seq<LinkNode>, k: nat)
    requires IsRing(chain) && k < |chain| - 1
    ensures forall i :: 0 <= i < |chain| - 1 && i != k ==> chain[i] != chain[k]
    ensures forall i :: 0 < i < |chain| && i != k + 1 ==> chain[i] != chain[k+1]
  {
  }

  class LinkNode {
    var previous: LinkNode?
    var next: LinkNode?

    constructor ()
      ensures previous == null && next == null
    {
      previous, next := null, null;
    }

    method InsertBefore(e: LinkNode)
      requires e.previous != null && this != e && this != e.previous
      modifies this, e, e.previous
      ensures next == e && e.previous == this
      ensures previous == old(e.previous) && previous.next == this
      ensures e != previous ==> e.next == old(e.next) && previous.previous == old(e.previous.previous)
    {
      next := e;
      previous := e.previous;
      e.previous.next := this;
      e.previous := this;
    }

    method InsertAfter(e: LinkNode)
      requires e.next != null && this != e && this != e.next
      modifies this, e, e.next
      ensures previous == e && e.next == this
      ensures next == old(e.next) && next.previous == this
      ensures e != next ==> e.previous == old(e.previous) && next.next == old(e.next.next)
    {
      next := e.next;
      previous := e;
      e.next.previous := this;
      e.next := this;
    }

    method RemoveFromList()
      requires previous != null && next != null && this != previous && this != next
      modifies previous, next
      ensures next == old(next) && previous == old(previous)
      ensures previous.next == next && next.previous == previous
      ensures previous != next ==> previous.previous == old(previous.previous) && next.next == old(next.next)
    {
      previous.next := next;
      next.previous := previous;
    }
  }

  class LinkedList {
    const root: LinkNode
    ghost var nodes: seq<LinkNode>

    /** Once round the ring, from the root to the root. */
    ghost function Chain(): seq<LinkNode>
      reads this
    {
      [root] + nodes + [root]
    }

    ghost predicate Valid()
      reads this, Chain()
    {
      IsRing(Chain()) && Linked(Chain())
    }

    constructor ()
      ensures Valid() && nodes == [] && fresh(root)
    {
      root := new LinkNode();
      nodes := [];
      new;
      root.previous, root.next := root, root;
    }

    /** node->InsertBefore(e), where e is at chain position k + 1. */
    method InsertBefore(node: LinkNode, e: LinkNode, ghost k: nat)
      requires Valid() && k <= |nodes| && e == Chain()[k+1] && node !in Chain()
      modifies node, e, e.previous, `nodes
      ensures Valid() && nodes == old(nodes)[..k] + [node] + old(nodes)[k..]
    {
      ghost var chain := Chain();
      assert chain[k].next == e && e.previous == chain[k];
      RingGap(chain, k);
      node.InsertBefore(e);
      assert LinkedBut(chain, k);
      SpliceLinks(chain, k, node);
      ChainSpliced(root, nodes, k, node);
      nodes := nodes[..k] + [node] + nodes[k..];
    }

    method Append(e: LinkNode)
      requires Valid() && e !in Chain()
      modifies e, root, root.previous, `nodes
      ensures Valid() && nodes == old(nodes) + [e]
    {
      InsertBefore(e, root, |nodes|);
    }

    /** node->InsertAfter(e), where e is at chain position k. */
    method InsertAfter(node: LinkNode, e: LinkNode, ghost k: nat)
      requires Valid() && k <= |nodes| && e == Chain()[k] && node !in Chain()
      modifies node, e, e.next, `nodes
      ensures Valid() && nodes == old(nodes)[..k] + [node] + old(nodes)[k..]
    {
      ghost var chain := Chain();
      assert e.next == chain[k+1] && chain[k+1].previous == e;
      RingGap(chain, k);
      node.InsertAfter(e);
      assert LinkedBut(chain, k);
      SpliceLinks(chain, k, node);
      ChainSpliced(root, nodes, k, node);
      nodes := nodes[..k] + [node] + nodes[k..];
    }

    /** node->RemoveFromList(); the node keeps its own two pointers. */
    method Remove(node: LinkNode, ghost k: nat)
      requires Valid() && k < |nodes| && node == nodes[k]
      modifies node.previous, node.next, `nodes
      ensures Valid() && node !in Chain()
      ensures nodes == old(nodes)[..k] + old(nodes)[k+1..]
      ensures node.next == old(node.next) == Chain()[k+1] && node.previous == old(node.previous) == Chain()[k]
    {
      ghost var was := Chain();
      assert was[k].next == was[k+1] == node && node.next == was[k+2] && node.previous == was[k];
      ChainUnspliced(root, nodes, k);
      nodes := nodes[..k] + nodes[k+1..];
      ghost var chain := Chain();
      RingGap(chain, k);
      node.RemoveFromList();
      forall i | 0 <= i < |chain| - 1
        ensures chain[i].next == chain[i+1] && chain[i+1].previous == chain[i]
      {
        ghost var at := if i < k then i else i + 1;
        assert i != k ==> was[at] == chain[i] && was[at+1] == chain[i+1];
      }
    }

    /** The documented loop from head() to end(). */
    method Forwards() returns (seen: seq<LinkNode>)
      requires Valid()
      ensures seen == nodes
    {
      seen := [];
      RootOnlyAtEnds(Chain());
      assert Chain()[0].next == Chain()[1];
      var node := root.next;
      while node != root
        invariant |seen| <= |nodes| && seen == nodes[..|seen|]
        invariant node == Chain()[|seen| + 1]
        decreases |nodes| - |seen|
      {
        assert Chain()[|seen| + 1].next == Chain()[|seen| + 2];
        seen := seen + [node];
        node := node.next;
      }
    }

    /** The documented loop from tail() to end(). */
    method Backwards() returns (seen: seq<LinkNode>)
      requires Valid()
      ensures |seen| == |nodes| && forall i :: 0 <= i < |nodes| ==> seen[i] == nodes[|nodes| - 1 - i]
    {
      seen := [];
      RootOnlyAtEnds(Chain());
      assert Chain()[|nodes| + 1].previous == Chain()[|nodes|];
      var node := root.previous;
      while node != root
        invariant |seen| <= |nodes|
        invariant forall i :: 0 <= i < |seen| ==> seen[i] == nodes[|nodes| - 1 - i]
        invariant node == Chain()[|nodes| - |seen|]
        decreases |nodes| - |seen|
      {
        assert Chain()[|nodes| - |seen|].previous == Chain()[|nodes| - |seen| - 1];
        seen := seen + [node];
        node := node.previous;
      }
    }
  }

  lemma ChainNeighbours(chain: seq<LinkNode>, n: LinkNode) returns (i: nat, j: nat)
    requires IsRing(chain) && n in chain
    ensures i < |chain| - 1 && chain[i] == n && j < |chain| - 1 && chain[j+1] == n
  {
    var at :| 0 <= at < |chain| && chain[at] == n;
    i := if at == |chain| - 1 then 0 else at;
    j := if at == 0 then |chain| - 2 else at - 1;
  }

  /** Removing a node and inserting it before its retained next pointer restores
      every pointer in the heap. */
  method RemoveAndReinsert(node: LinkNode, list: LinkedList, ghost k: nat)
    requires list.Valid() && k < |list.nodes| && node == list.nodes[k]
    modifies list.Chain(), list`nodes
    ensures list.Valid() && list.nodes == old(list.nodes)
    ensures forall n: LinkNode :: old(allocated(n)) ==> n.next == old(n.next) && n.previous == old(n.previous)
  {
    ghost var chain := list.Chain();
    assert chain[k+1] == node && chain[k].next == node && node.previous == chain[k] && node.next == chain[k+2];
    list.Remove(node, k);
    list.InsertBefore(node, node.next, k);
    assert list.Chain() == chain;
    forall n | n in chain
      ensures n.next == old(n.next) && n.previous == old(n.previous)
    {
      ghost var i, j := ChainNeighbours(chain, n);
      assert chain[i].next == chain[i+1] && old(chain[i].next) == chain[i+1];
      assert chain[j+1].previous == chain[j] && old(chain[j+1].previous) == chain[j];
    }
  }

  /** Appending to one list leaves any chain of other nodes linked. */
  method AppendApart(node: LinkNode, to: LinkedList, ghost rest: seq<LinkNode>)
    requires to.Valid() && node !in to.Chain() && Linked(rest)
    requires node !in rest && forall n :: n in rest ==> n !in to.Chain()
    modifies to.Chain(), node, to`nodes
    ensures to.Valid() && to.nodes == old(to.nodes) + [node] && Linked(rest)
  {
    ghost var chain := to.Chain();
    ghost var last := |chain| - 2;
    assert chain[last].next == chain[last+1] && chain[last+1].previous == chain[last];
    assert to.root in chain && to.root.previous in chain;
    to.Append(node);
  }

  /** And so does taking a node out. */
  method RemoveApart(node: LinkNode, from: LinkedList, ghost rest: seq<LinkNode>, ghost k: nat)
    requires from.Valid() && k < |from.nodes| && node == from.nodes[k] && Linked(rest)
    requires forall n :: n in rest ==> n !in from.Chain()
    modifies from.Chain(), from`nodes
    ensures from.Valid() && from.nodes == old(from.nodes)[..k] + old(from.nodes)[k+1..] && Linked(rest)
    ensures node !in from.Chain() && forall n :: n in from.Chain() ==> n in old(from.Chain())
  {
    ghost var chain := from.Chain();
    assert chain[k+1] == node && chain[k].next == node && node.previous == chain[k] && node.next == chain[k+2];
    assert node in chain && node.previous in chain && node.next in chain;
    from.Remove(node, k);
  }

  /** Two lists at once: taking a node from one and appending it to the other leaves
      everything else in both as it was. */
  method MoveToOther(node: LinkNode, from: LinkedList, to: LinkedList, ghost k: nat)
    requires from.Valid() && to.Valid() && from != to
    requires forall n :: n in from.Chain() ==> n !in to.Chain()
    requires k < |from.nodes| && node == from.nodes[k]
    modifies from.Chain(), to.Chain(), from`nodes, to`nodes
    ensures from.Valid() && from.nodes == old(from.nodes)[..k] + old(from.nodes)[k+1..]
    ensures to.Valid() && to.nodes == old(to.nodes) + [node]
  {
    ghost var other := to.Chain();
    assert node in from.Chain();
    RemoveApart(node, from, other, k);
    assert to.Chain() == other;
    AppendApart(node, to, from.Chain());
  }
}
