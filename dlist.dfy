/** add_dnodeint_end of doubly_linked_lists/3-add_dnodeint_end.c: append a node
    holding `n` to a NULL-terminated doubly-linked list of ints.

    The caller's `*head` is passed in as `head` and its new value handed back as
    `newHead`. A ghost sequence `nodes` names the nodes of the list from the head. */
module DoublyLinkedList {

  /** One list node (dlistint_t). Its value is fixed when the node is made. */
  class DNode {
    const n: int
    var prev: DNode?
    var next: DNode?

    /** A detached node holding `n` (source lines 19-21). */
    constructor (n: int)
      ensures this.n == n && prev == null && next == null
    {
      this.n := n;
      prev, next := null, null;
    }
  }

  /** `head` starts the list `nodes`: every node once, `next` links forward to
      NULL after the last node and `prev` links back to NULL before the first. */
  ghost predicate IsList(head: DNode?, nodes: seq<DNode>)
    reads nodes
  {
    (forall i, j :: 0 <= i < j < |nodes| ==> nodes[i] != nodes[j]) &&
    head == (if nodes == [] then null else nodes[0]) &&
    (forall i :: 0 < i < |nodes| ==> nodes[i - 1].next == nodes[i] && nodes[i].prev == nodes[i - 1]) &&
    (nodes != [] ==> nodes[0].prev == null && nodes[|nodes| - 1].next == null)
  }

  /** The values of `nodes`, from the head. */
  function Values(nodes: seq<DNode>): (vs: seq<int>)
    ensures |vs| == |nodes|
    ensures forall i :: 0 <= i < |nodes| ==> vs[i] == nodes[i].n
  {
    if nodes == [] then [] else Values(nodes[..|nodes| - 1]) + [nodes[|nodes| - 1].n]
  }

  /** add_dnodeint_end. `allocOk` says whether malloc succeeds; on failure NULL is
      returned and nothing changes. Otherwise the new node, holding `n`, becomes
      the last node: it is the new head of an empty list, or is linked after the
      old last node. */
  method AddDNodeIntEnd(head: DNode?, n: int, allocOk: bool, ghost nodes: seq<DNode>)
      returns (newHead: DNode?, added: DNode?)
    requires IsList(head, nodes)
    modifies if nodes == [] then {} else {nodes[|nodes| - 1]}
    ensures !allocOk ==> added == null && newHead == head
    ensures !allocOk ==> IsList(newHead, nodes)
    ensures allocOk ==> added != null && fresh(added) && added.n == n && added.next == null
    ensures allocOk ==> IsList(newHead, nodes + [added])
    ensures allocOk ==> Values(nodes + [added]) == Values(nodes) + [n]
    ensures allocOk && nodes == [] ==> newHead == added && added.prev == null
    ensures allocOk && nodes != [] ==> newHead == head && nodes[|nodes| - 1].next == added && added.prev == nodes[|nodes| - 1]
  {
    if !allocOk {
      return head, null;
    }
    added := new DNode(n);
    if head == null {
      assert nodes + [added] == [added];
      return added, added;
    }
    var tail := head;
    ghost var i := 0;
    assert 1 < |nodes| ==> nodes[0].next == nodes[1];
    while tail.next != null
      invariant 0 <= i < |nodes| && tail == nodes[i]
      invariant IsList(head, nodes)
      invariant (tail.next == null) == (i + 1 == |nodes|)
      invariant added.prev == null && added.next == null
      decreases |nodes| - i
    {
      tail := tail.next;
      i := i + 1;
      assert i + 1 < |nodes| ==> nodes[i].next == nodes[i + 1];
    }
    label linked:
    tail.next := added;
    added.prev := tail;
    newHead := head;
    ghost var nodes' := nodes + [added];
    forall k | 0 < k < |nodes'|
      ensures nodes'[k - 1].next == nodes'[k] && nodes'[k].prev == nodes'[k - 1]
    {
      if k < |nodes| {
        assert nodes'[k - 1] == nodes[k - 1] != added && nodes'[k] == nodes[k] != added;
      }
    }
  }
}
