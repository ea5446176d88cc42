/** The sorted hash table of hash_tables/100-sorted_hash_table.c: one set of nodes
    threaded through two link systems, the bucket chains of a fixed array (`next`)
    and a doubly-linked list in ascending key order (`sprev`/`snext`, `shead`/`stail`).

    Nodes live in an arena: node `n` is the n-th element of the parallel sequences
    `keys`, `values`, `next`, `sprev` and `snext`, and a pointer to it is `At(n)`.
    Ghost sequences name the nodes each link system visits, in order. */
module SortedHashTable {
  import opened StringOrder
  import opened SortedEntries

  /** A node pointer: NULL, or the arena index of a node. */
  datatype Ptr = Null | At(node: nat)

  /** Following `link` from `head` visits exactly `nodes` and ends in NULL. */
  ghost predicate Linked(link: seq<Ptr>, head: Ptr, nodes: seq<nat>) {
    (forall i :: 0 <= i < |nodes| ==> nodes[i] < |link|) &&
    head == (if nodes == [] then Null else At(nodes[0])) &&
    (forall i {:trigger link[nodes[i]]} :: 0 <= i < |nodes| ==>
       link[nodes[i]] == if i + 1 < |nodes| then At(nodes[i + 1]) else Null)
  }

  /** A list that ends in NULL cannot visit a node twice: from a repeated node
      on, both visits would follow the same links, and one of them would reach
      NULL before the end. */
  lemma {:induction false} LinkedNoRepeat(link: seq<Ptr>, head: Ptr, nodes: seq<nat>, i: nat, j: nat)
    requires Linked(link, head, nodes) && i < j < |nodes|
    ensures nodes[i] != nodes[j]
    decreases |nodes| - j
  {
    if j + 1 < |nodes| {
      LinkedNoRepeat(link, head, nodes, i + 1, j + 1);
      assert link[nodes[i]] == At(nodes[i + 1]) && link[nodes[j]] == At(nodes[j + 1]);
    } else {
      assert link[nodes[i]] == At(nodes[i + 1]) && link[nodes[j]] == Null;
    }
  }

  /** Every node of a list is visited once. */
  lemma LinkedDistinct(link: seq<Ptr>, head: Ptr, nodes: seq<nat>)
    requires Linked(link, head, nodes)
    ensures forall i, j :: 0 <= i < j < |nodes| ==> nodes[i] != nodes[j]
  {
    forall i, j | 0 <= i < j < |nodes|
      ensures nodes[i] != nodes[j]
    {
      LinkedNoRepeat(link, head, nodes, i, j);
    }
  }

  /** The sorted list visits `order` forward from `head` along `snext`, and the
      `sprev` links and `tail` mirror it exactly. */
  ghost predicate Threaded(sprev: seq<Ptr>, snext: seq<Ptr>, head: Ptr, tail: Ptr, order: seq<nat>) {
    |sprev| == |snext| &&
    Linked(snext, head, order) &&
    tail == (if order == [] then Null else At(order[|order| - 1])) &&
    (forall i {:trigger sprev[order[i]]} :: 0 <= i < |order| ==>
       sprev[order[i]] == if 0 < i then At(order[i - 1]) else Null)
  }

  /** The entries of the nodes `order`, in that order. */
  function View(keys: seq<string>, values: seq<string>, order: seq<nat>): seq<Entry>
    requires |values| == |keys|
    requires forall i :: 0 <= i < |order| ==> order[i] < |keys|
  {
    seq(|order|, i requires 0 <= i < |order| => Entry(keys[order[i]], values[order[i]]))
  }

  /** key_index: the bucket of `key` in a table of `size` buckets. */
  function KeyIndex(hash: string -> nat, key: string, size: nat): (b: nat)
    requires size > 0
    ensures b < size
  {
    hash(key) % size
  }

  /** The bucket chains: `heads[b]` starts the chain `chains[b]`; every node sits,
      once, in the chain of the bucket its key hashes to, and in no other. */
  ghost predicate BucketsOk(hash: string -> nat, size: nat, heads: seq<Ptr>, keys: seq<string>,
                            next: seq<Ptr>, chains: seq<seq<nat>>)
  {
    size > 0 && |heads| == size && |chains| == size && |next| == |keys| &&
    (forall b :: 0 <= b < size ==>
       Linked(next, heads[b], chains[b]) &&
       forall i :: 0 <= i < |chains[b]| ==> KeyIndex(hash, keys[chains[b][i]], size) == b) &&
    (forall n :: 0 <= n < |keys| ==> n in chains[KeyIndex(hash, keys[n], size)])
  }

  /** The sorted list threads each of the nodes 0 .. count-1 exactly once, in
      strictly ascending key order. */
  ghost predicate ListOk(count: nat, keys: seq<string>, values: seq<string>, sprev: seq<Ptr>,
                         snext: seq<Ptr>, head: Ptr, tail: Ptr, order: seq<nat>)
  {
    |values| == |keys| && |sprev| == |keys| && |snext| == |keys| &&
    count <= |keys| && |order| == count &&
    (forall i :: 0 <= i < |order| ==> order[i] < count) &&
    (forall n :: 0 <= n < count ==> n in order) &&
    Threaded(sprev, snext, head, tail, order) &&
    Ascending(View(keys, values, order))
  }

  class Table {
    /** Number of buckets (ht->size). */
    const size: nat
    /** The hash that key_index reduces modulo `size`. */
    const hash: string -> nat
    /** Bucket heads (ht->array). */
    const buckets: array<Ptr>
    /** The node arena. */
    var keys: seq<string>
    var values: seq<string>
    var next: seq<Ptr>
    var sprev: seq<Ptr>
    var snext: seq<Ptr>
    /** Ends of the sorted list. */
    var shead: Ptr
    var stail: Ptr
    /** chains[b]: the nodes of bucket b, from its head. */
    ghost var chains: seq<seq<nat>>
    /** The nodes of the sorted list, from shead to stail. */
    ghost var order: seq<nat>

    /** A table over the bucket array `heads`, every bucket empty and no node yet. */
    constructor (size: nat, hash: string -> nat, heads: array<Ptr>)
      requires size > 0 && heads.Length == size
      requires forall b :: 0 <= b < size ==> heads[b] == Null
      ensures Valid() && Items() == []
      ensures this.size == size && this.hash == hash && buckets == heads
    {
      this.size, this.hash, buckets := size, hash, heads;
      keys, values, next, sprev, snext := [], [], [], [], [];
      shead, stail := Null, Null;
      chains, order := seq(size, _ => []), [];
    }

    /** The table invariant. */
    ghost predicate Valid()
      reads this, buckets
    {
      BucketsOk(hash, size, buckets[..], keys, next, chains) &&
      ListOk(|keys|, keys, values, sprev, snext, shead, stail, order) &&
      (forall n :: 0 <= n < |keys| ==> keys[n] != [])
    }

    /** The table's entries, from shead to stail. */
    ghost function Items(): seq<Entry>
      reads this, buckets
      requires Valid()
    {
      View(keys, values, order)
    }

    /** The sprev link of the j-th node of the sorted list points to the node
        before it, or is NULL for the first. */
    lemma PrevOf(j: nat)
      requires Valid() && j < |order|
      ensures order[j] < |keys|
      ensures sprev[order[j]] == if 0 < j then At(order[j - 1]) else Null
    {
    }

    /** Each node's key finds that node's value. */
    lemma FindNode(n: nat)
      requires Valid() && n < |keys|
      ensures Find(Items(), keys[n]) == Some(values[n])
    {
      assert n in order;
      var j :| 0 <= j < |order| && order[j] == n;
      FindAt(Items(), j);
    }

    /** A key missing from the chain of its own bucket is missing from the table. */
    lemma AbsentFromBucket(k: string)
      requires Valid()
      requires forall j :: 0 <= j < |chains[KeyIndex(hash, k, size)]| ==> keys[chains[KeyIndex(hash, k, size)][j]] != k
      ensures forall n :: 0 <= n < |keys| ==> keys[n] != k
      ensures Find(Items(), k).None?
    {
      forall n | 0 <= n < |keys|
        ensures keys[n] != k
      {
        assert n in chains[KeyIndex(hash, keys[n], size)];
      }
      assert forall i :: 0 <= i < |order| ==> Items()[i].key == keys[order[i]];
    }

    /** No two nodes share a key. */
    lemma KeysDistinct(m: nat, n: nat)
      requires Valid() && m < |keys| && n < |keys| && m != n
      ensures keys[m] != keys[n]
    {
      assert m in order && n in order;
      var i :| 0 <= i < |order| && order[i] == m;
      var j :| 0 <= j < |order| && order[j] == n;
      var s := Items();
      if i < j {
        assert Less(s[i].key, s[j].key);
      } else {
        assert Less(s[j].key, s[i].key);
      }
    }

    /** Node `n` is the only node holding its key. */
    lemma KeyUnique(n: nat)
      requires Valid() && n < |keys|
      ensures forall m :: 0 <= m < |keys| && m != n ==> keys[m] != keys[n]
    {
      forall m | 0 <= m < |keys| && m != n
        ensures keys[m] != keys[n]
      {
        KeysDistinct(m, n);
      }
    }

    /** The sorted list's links agree: the successor of every listed node points
        back to it, shead has no predecessor and stail no successor. */
    lemma BackLinks()
      requires Valid()
      ensures forall n :: 0 <= n < |keys| && snext[n].At? ==> snext[n].node < |keys| && sprev[snext[n].node] == At(n)
      ensures forall n :: 0 <= n < |keys| && sprev[n].At? ==> sprev[n].node < |keys| && snext[sprev[n].node] == At(n)
      ensures shead.At? ==> shead.node < |keys| && sprev[shead.node] == Null
      ensures stail.At? ==> stail.node < |keys| && snext[stail.node] == Null
      ensures (shead == Null) == (stail == Null) == (keys == [])
    {
      ThreadedBackLinks(sprev, snext, shead, stail, order);
      forall n | 0 <= n < |keys|
        ensures snext[n].At? ==> snext[n].node < |keys| && sprev[snext[n].node] == At(n)
        ensures sprev[n].At? ==> sprev[n].node < |keys| && snext[sprev[n].node] == At(n)
      {
        assert n in order;
        var i :| 0 <= i < |order| && order[i] == n;
        if 0 < i {
          assert sprev[order[i]] == At(order[i - 1]);
        }
      }
      if keys != [] {
        assert 0 in order;
      }
    }
  }

  /** Along the sorted list, the successor's `sprev` points back; the head has no
      predecessor and the tail no successor. */
  lemma ThreadedBackLinks(sprev: seq<Ptr>, snext: seq<Ptr>, head: Ptr, tail: Ptr, order: seq<nat>)
    requires Threaded(sprev, snext, head, tail, order)
    ensures forall i :: 0 <= i < |order| && snext[order[i]].At? ==>
              snext[order[i]].node < |sprev| && sprev[snext[order[i]].node] == At(order[i])
    ensures head.At? ==> head.node < |sprev| && sprev[head.node] == Null
    ensures tail.At? ==> tail.node < |snext| && snext[tail.node] == Null
  {
    forall i | 0 <= i < |order| && snext[order[i]].At?
      ensures snext[order[i]].node < |sprev| && sprev[snext[order[i]].node] == At(order[i])
    {
      assert i + 1 < |order| && snext[order[i]] == At(order[i + 1]);
      assert sprev[order[i + 1]] == At(order[i]);
    }
    if order != [] {
      assert sprev[order[0]] == Null;
      assert snext[order[|order| - 1]] == Null;
    }
  }

  /** Appending a link for a new node leaves every existing chain as it was. */
  lemma LinkedExtend(link: seq<Ptr>, head: Ptr, nodes: seq<nat>, x: Ptr)
    requires Linked(link, head, nodes)
    ensures Linked(link + [x], head, nodes)
  {
    var l := link + [x];
    assert forall i :: 0 <= i < |nodes| ==> l[nodes[i]] == link[nodes[i]];
  }

  /** A new node whose link is the old head, made the head, starts the old chain
      extended at the front. */
  lemma LinkedPrepend(link: seq<Ptr>, head: Ptr, nodes: seq<nat>)
    requires Linked(link, head, nodes)
    ensures Linked(link + [head], At(|link|), [|link|] + nodes)
  {
    var l := link + [head];
    var c := [|link|] + nodes;
    assert forall i :: 0 < i < |c| ==> c[i] == nodes[i - 1];
    assert forall i :: 0 <= i < |nodes| ==> l[nodes[i]] == link[nodes[i]];
  }

  /** Adding an unlinked node to the arena leaves the sorted list as it was. */
  lemma ThreadedExtend(sprev: seq<Ptr>, snext: seq<Ptr>, head: Ptr, tail: Ptr, order: seq<nat>)
    requires Threaded(sprev, snext, head, tail, order)
    ensures Threaded(sprev + [Null], snext + [Null], head, tail, order)
  {
    LinkedExtend(snext, head, order, Null);
    var p := sprev + [Null];
    assert forall i :: 0 <= i < |order| ==> p[order[i]] == sprev[order[i]];
  }

  /** insert_sorted's first branch: a node linked into an empty list is head and tail. */
  lemma SpliceEmpty(sprev: seq<Ptr>, snext: seq<Ptr>, node: nat)
    requires |sprev| == |snext| && node < |snext|
    requires sprev[node] == Null && snext[node] == Null
    ensures Threaded(sprev, snext, At(node), At(node), [node])
  {
  }

  /** insert_sorted's new-head branch (source lines 31-33). */
  lemma SpliceHead(sprev: seq<Ptr>, snext: seq<Ptr>, head: Ptr, tail: Ptr, order: seq<nat>, node: nat)
    requires Threaded(sprev, snext, head, tail, order) && order != []
    requires node < |snext| && sprev[node] == Null
    requires forall i :: 0 <= i < |order| ==> order[i] != node
    ensures Threaded(sprev[order[0] := At(node)], snext[node := head], At(node), tail, [node] + order)
  {
    var o := [node] + order;
    var sp := sprev[order[0] := At(node)];
    var sn := snext[node := head];
    LinkedDistinct(snext, head, order);
    assert forall i :: 0 < i < |o| ==> o[i] == order[i - 1];
    forall i | 0 <= i < |o|
      ensures sn[o[i]] == if i + 1 < |o| then At(o[i + 1]) else Null
      ensures sp[o[i]] == if 0 < i then At(o[i - 1]) else Null
    {
      if i > 0 {
        assert sn[o[i]] == snext[order[i - 1]];
      }
    }
    assert forall i :: 0 <= i < |o| ==> o[i] < |sn|;
    assert Linked(sn, At(node), o);
    assert tail == At(o[|o| - 1]);
  }

  /** insert_sorted's new-tail branch (source lines 37-39). */
  lemma SpliceTail(sprev: seq<Ptr>, snext: seq<Ptr>, head: Ptr, tail: Ptr, order: seq<nat>, node: nat)
    requires Threaded(sprev, snext, head, tail, order) && order != []
    requires node < |snext| && snext[node] == Null
    requires forall i :: 0 <= i < |order| ==> order[i] != node
    ensures Threaded(sprev[node := tail], snext[order[|order| - 1] := At(node)], head, At(node), order + [node])
  {
    var o := order + [node];
    var sp := sprev[node := tail];
    var sn := snext[order[|order| - 1] := At(node)];
    LinkedDistinct(snext, head, order);
    assert forall i :: 0 <= i < |order| ==> o[i] == order[i];
    forall i | 0 <= i < |o|
      ensures sn[o[i]] == if i + 1 < |o| then At(o[i + 1]) else Null
      ensures sp[o[i]] == if 0 < i then At(o[i - 1]) else Null
    {
      if i < |order| {
        assert o[i] == order[i] && o[i] != node;
        if 0 < i {
          assert o[i - 1] == order[i - 1];
        }
      } else {
        assert o[i] == node && o[i - 1] == order[|order| - 1];
      }
    }
    assert forall i :: 0 <= i < |o| ==> o[i] < |sn|;
    assert Linked(sn, head, o);
    assert head == At(o[0]);
  }

  /** insert_sorted's middle branch (source lines 43-46): the new node goes between
      order[p - 1] and order[p], and all four links are updated. */
  lemma SpliceMiddle(sprev: seq<Ptr>, snext: seq<Ptr>, head: Ptr, tail: Ptr, order: seq<nat>, node: nat, p: nat)
    requires Threaded(sprev, snext, head, tail, order) && 0 < p < |order|
    requires node < |snext|
    requires forall i :: 0 <= i < |order| ==> order[i] != node
    ensures Threaded(sprev[node := At(order[p - 1])][order[p] := At(node)],
                     snext[node := At(order[p])][order[p - 1] := At(node)],
                     head, tail, order[..p] + [node] + order[p..])
  {
    var o := order[..p] + [node] + order[p..];
    var sp := sprev[node := At(order[p - 1])][order[p] := At(node)];
    var sn := snext[node := At(order[p])][order[p - 1] := At(node)];
    LinkedDistinct(snext, head, order);
    forall i | 0 <= i < |o|
      ensures o[i] < |sn|
      ensures sn[o[i]] == if i + 1 < |o| then At(o[i + 1]) else Null
    {
      if i < p - 1 {
        assert o[i] == order[i] && o[i + 1] == order[i + 1];
        assert sn[order[i]] == snext[order[i]];
      } else if i == p - 1 {
        assert o[i] == order[p - 1] && o[i + 1] == node;
      } else if i == p {
        assert o[i] == node && o[i + 1] == order[p];
      } else {
        assert o[i] == order[i - 1];
        assert sn[order[i - 1]] == snext[order[i - 1]];
        if i + 1 < |o| {
          assert o[i + 1] == order[i];
        }
      }
    }
    forall i | 0 <= i < |o|
      ensures sp[o[i]] == if 0 < i then At(o[i - 1]) else Null
    {
      if i < p {
        assert o[i] == order[i];
        assert sp[order[i]] == sprev[order[i]];
        if 0 < i {
          assert o[i - 1] == order[i - 1];
        }
      } else if i == p {
        assert o[i] == node && o[i - 1] == order[p - 1];
      } else if i == p + 1 {
        assert o[i] == order[p] && o[i - 1] == node;
      } else {
        assert o[i] == order[i - 1] && o[i - 1] == order[i - 2];
        assert sp[order[i - 1]] == sprev[order[i - 1]];
      }
    }
    assert Linked(sn, head, o);
    assert head == At(o[0]) && tail == At(o[|o| - 1]);
  }

  /** The entries of `order` with `node` placed at index `p`. */
  lemma ViewInsert(keys: seq<string>, values: seq<string>, order: seq<nat>, node: nat, p: nat)
    requires |values| == |keys| && node < |keys| && p <= |order|
    requires forall i :: 0 <= i < |order| ==> order[i] < |keys|
    ensures View(keys, values, order[..p] + [node] + order[p..])
         == View(keys, values, order)[..p] + [Entry(keys[node], values[node])] + View(keys, values, order)[p..]
  {
  }

  /** The state insert_sorted starts from: the list threads nodes 0 .. node-1, and
      node `node`, the newest, is unlinked and holds a key no other node has. */
  ghost predicate Unlinked(node: nat, keys: seq<string>, values: seq<string>, sprev: seq<Ptr>,
                           snext: seq<Ptr>, head: Ptr, tail: Ptr, order: seq<nat>)
  {
    node + 1 == |keys| &&
    ListOk(node, keys, values, sprev, snext, head, tail, order) &&
    sprev[node] == Null && snext[node] == Null &&
    forall n :: 0 <= n < node ==> keys[n] != keys[node]
  }

  /** Where insert_sorted's scan stops: the first `p` listed keys sort before the
      new key, and the one at `p`, if any, does not. */
  ghost predicate Stopped(keys: seq<string>, order: seq<nat>, node: nat, p: nat)
    requires node < |keys| && forall i :: 0 <= i < |order| ==> order[i] < |keys|
  {
    p <= |order| &&
    (forall q :: 0 <= q < p ==> Less(keys[order[q]], keys[node])) &&
    (p < |order| ==> !Less(keys[order[p]], keys[node]))
  }

  /** Placing node `node` into a list of the nodes 0 .. node-1 gives a list of the
      nodes 0 .. node. */
  lemma InsertCovers(order: seq<nat>, node: nat, p: nat)
    requires p <= |order| && forall i :: 0 <= i < |order| ==> order[i] < node
    requires forall n :: 0 <= n < node ==> n in order
    ensures forall i :: 0 <= i < |order| + 1 ==> (order[..p] + [node] + order[p..])[i] < node + 1
    ensures forall n :: 0 <= n < node + 1 ==> n in order[..p] + [node] + order[p..]
  {
    var o := order[..p] + [node] + order[p..];
    assert order == order[..p] + order[p..];
    forall n | 0 <= n < node + 1
      ensures n in o
    {
      if n < node {
        assert n in order;
        assert n in order[..p] || n in order[p..];
      }
    }
  }

  /** The scan stops exactly where Splice places the new entry, and the new key
      is not yet in the list. */
  lemma StoppedAtPosition(keys: seq<string>, values: seq<string>, order: seq<nat>, node: nat, p: nat)
    requires node < |keys| && |values| == |keys|
    requires forall i :: 0 <= i < |order| ==> order[i] < |keys| && keys[order[i]] != keys[node]
    requires Stopped(keys, order, node, p)
    ensures Find(View(keys, values, order), keys[node]).None?
    ensures p == Position(View(keys, values, order), keys[node])
  {
    var s := View(keys, values, order);
    assert forall i :: 0 <= i < |s| ==> s[i].key == keys[order[i]];
    PositionUnique(s, keys[node], p);
  }

  /** After a splice at the scan's stopping point, the list threads one node more,
      and its entries are those of the old list with the new entry spliced in. */
  lemma SplicedListOk(keys: seq<string>, values: seq<string>, sprev0: seq<Ptr>, snext0: seq<Ptr>,
                      head0: Ptr, tail0: Ptr, sprev: seq<Ptr>, snext: seq<Ptr>, head: Ptr, tail: Ptr,
                      order: seq<nat>, node: nat, p: nat)
    requires Unlinked(node, keys, values, sprev0, snext0, head0, tail0, order)
    requires Stopped(keys, order, node, p)
    requires |sprev| == |keys| && |snext| == |keys|
    requires Threaded(sprev, snext, head, tail, order[..p] + [node] + order[p..])
    ensures ListOk(node + 1, keys, values, sprev, snext, head, tail, order[..p] + [node] + order[p..])
    ensures View(keys, values, order[..p] + [node] + order[p..])
         == Splice(View(keys, values, order), Entry(keys[node], values[node]))
  {
    StoppedAtPosition(keys, values, order, node, p);
    InsertCovers(order, node, p);
    ViewInsert(keys, values, order, node, p);
    SpliceAscending(View(keys, values, order), Entry(keys[node], values[node]));
  }

  /** insert_sorted into an empty list (source lines 18-23). */
  lemma LinkEmpty(keys: seq<string>, values: seq<string>, sprev: seq<Ptr>, snext: seq<Ptr>,
                  head: Ptr, tail: Ptr, order: seq<nat>, node: nat)
    requires Unlinked(node, keys, values, sprev, snext, head, tail, order)
    requires head == Null
    ensures order == []
    ensures ListOk(node + 1, keys, values, sprev, snext, At(node), At(node), [node])
    ensures View(keys, values, [node]) == Splice(View(keys, values, order), Entry(keys[node], values[node]))
  {
    SpliceEmpty(sprev, snext, node);
    assert [node] == order[..0] + [node] + order[0..];
    SplicedListOk(keys, values, sprev, snext, head, tail, sprev, snext, At(node), At(node), order, node, 0);
  }

  /** insert_sorted's new-head branch (source lines 29-34). */
  lemma LinkHead(keys: seq<string>, values: seq<string>, sprev: seq<Ptr>, snext: seq<Ptr>,
                 head: Ptr, tail: Ptr, order: seq<nat>, node: nat, p: nat)
    requires Unlinked(node, keys, values, sprev, snext, head, tail, order)
    requires Stopped(keys, order, node, p)
    requires p < |order| && head == At(order[p])
    ensures p == 0 && head.node < |sprev|
    ensures ListOk(node + 1, keys, values, sprev[head.node := At(node)], snext[node := head],
                   At(node), tail, [node] + order)
    ensures View(keys, values, [node] + order)
         == Splice(View(keys, values, order), Entry(keys[node], values[node]))
  {
    LinkedDistinct(snext, head, order);
    SpliceHead(sprev, snext, head, tail, order, node);
    assert [node] + order == order[..0] + [node] + order[0..];
    SplicedListOk(keys, values, sprev, snext, head, tail,
                  sprev[head.node := At(node)], snext[node := head], At(node), tail, order, node, 0);
  }

  /** insert_sorted's new-tail branch (source lines 35-40). */
  lemma LinkTail(keys: seq<string>, values: seq<string>, sprev: seq<Ptr>, snext: seq<Ptr>,
                 head: Ptr, tail: Ptr, order: seq<nat>, node: nat, p: nat)
    requires Unlinked(node, keys, values, sprev, snext, head, tail, order)
    requires Stopped(keys, order, node, p)
    requires p == |order| && head != Null
    ensures tail.At? && tail.node < |snext|
    ensures ListOk(node + 1, keys, values, sprev[node := tail], snext[tail.node := At(node)],
                   head, At(node), order + [node])
    ensures View(keys, values, order + [node])
         == Splice(View(keys, values, order), Entry(keys[node], values[node]))
  {
    SpliceTail(sprev, snext, head, tail, order, node);
    assert order + [node] == order[..p] + [node] + order[p..];
    SplicedListOk(keys, values, sprev, snext, head, tail,
                  sprev[node := tail], snext[tail.node := At(node)], head, At(node), order, node, p);
  }

  /** insert_sorted's middle branch (source lines 41-47): `tmp` is the first node
      whose key does not sort before the new one, and `prev` the node before it. */
  lemma LinkMiddle(keys: seq<string>, values: seq<string>, sprev: seq<Ptr>, snext: seq<Ptr>,
                   head: Ptr, tail: Ptr, order: seq<nat>, node: nat, p: nat)
    requires Unlinked(node, keys, values, sprev, snext, head, tail, order)
    requires Stopped(keys, order, node, p)
    requires p < |order| && head != At(order[p])
    ensures sprev[order[p]].At? && sprev[order[p]].node < |snext|
    ensures ListOk(node + 1, keys, values,
                   sprev[node := sprev[order[p]]][order[p] := At(node)],
                   snext[node := At(order[p])][sprev[order[p]].node := At(node)],
                   head, tail, order[..p] + [node] + order[p..])
    ensures View(keys, values, order[..p] + [node] + order[p..])
         == Splice(View(keys, values, order), Entry(keys[node], values[node]))
  {
    assert 0 < p;
    assert sprev[order[p]] == At(order[p - 1]);
    SpliceMiddle(sprev, snext, head, tail, order, node, p);
    SplicedListOk(keys, values, sprev, snext, head, tail,
                  sprev[node := sprev[order[p]]][order[p] := At(node)],
                  snext[node := At(order[p])][sprev[order[p]].node := At(node)],
                  head, tail, order, node, p);
  }

  /** The scan of insert_sorted (source lines 25-28): from the head of the sorted
      list, skip the nodes whose key sorts before the new node's key. */
  method ScanSorted(ht: Table, node: nat) returns (tmp: Ptr, ghost p: nat)
    requires Unlinked(node, ht.keys, ht.values, ht.sprev, ht.snext, ht.shead, ht.stail, ht.order)
    ensures Stopped(ht.keys, ht.order, node, p)
    ensures tmp == if p < |ht.order| then At(ht.order[p]) else Null
  {
    tmp := ht.shead;
    p := 0;
    while tmp != Null && Strcmp(ht.keys[node], ht.keys[tmp.node]) > 0
      invariant 0 <= p <= |ht.order|
      invariant tmp == if p < |ht.order| then At(ht.order[p]) else Null
      invariant forall q :: 0 <= q < p ==> Less(ht.keys[ht.order[q]], ht.keys[node])
      decreases |ht.order| - p
    {
      StrcmpAntisymmetric(ht.keys[node], ht.keys[tmp.node]);
      tmp := ht.snext[tmp.node];
      p := p + 1;
    }
    if tmp != Null {
      StrcmpAntisymmetric(ht.keys[node], ht.keys[tmp.node]);
    }
  }

  /** insert_sorted: splice node `node`, the newest in the arena, into the sorted
      list before the first node whose key does not sort before its own. */
  method InsertSorted(ht: Table, node: nat)
    requires Unlinked(node, ht.keys, ht.values, ht.sprev, ht.snext, ht.shead, ht.stail, ht.order)
    modifies ht
    ensures ListOk(node + 1, ht.keys, ht.values, ht.sprev, ht.snext, ht.shead, ht.stail, ht.order)
    ensures ht.keys == old(ht.keys) && ht.values == old(ht.values)
    ensures ht.next == old(ht.next) && ht.chains == old(ht.chains)
    ensures View(ht.keys, ht.values, ht.order)
         == Splice(old(View(ht.keys, ht.values, ht.order)), Entry(ht.keys[node], ht.values[node]))
  {
    if ht.shead == Null {
      LinkEmpty(ht.keys, ht.values, ht.sprev, ht.snext, ht.shead, ht.stail, ht.order, node);
      ht.shead, ht.stail, ht.order := At(node), At(node), [node];
      return;
    }
    var tmp, p := ScanSorted(ht, node);
    ghost var o := ht.order;
    if tmp == ht.shead {
      LinkHead(ht.keys, ht.values, ht.sprev, ht.snext, ht.shead, ht.stail, o, node, p);
      ht.snext, ht.sprev, ht.shead, ht.order :=
        ht.snext[node := ht.shead], ht.sprev[ht.shead.node := At(node)], At(node), [node] + o;
    } else if tmp == Null {
      LinkTail(ht.keys, ht.values, ht.sprev, ht.snext, ht.shead, ht.stail, o, node, p);
      ht.sprev, ht.snext, ht.stail, ht.order :=
        ht.sprev[node := ht.stail], ht.snext[ht.stail.node := At(node)], At(node), o + [node];
    } else {
      LinkMiddle(ht.keys, ht.values, ht.sprev, ht.snext, ht.shead, ht.stail, o, node, p);
      var prev := ht.sprev[tmp.node];
      ht.snext, ht.sprev, ht.order :=
        ht.snext[node := tmp][prev.node := At(node)], ht.sprev[node := prev][tmp.node := At(node)],
        o[..p] + [node] + o[p..];
    }
  }

  /** A new node prepended to the chain of its key's bucket: every bucket chain is
      still well formed and every node, the new one included, is in its bucket. */
  lemma BucketsPrepend(hash: string -> nat, size: nat, heads: seq<Ptr>, keys: seq<string>,
                       next: seq<Ptr>, chains: seq<seq<nat>>, k: string)
    requires BucketsOk(hash, size, heads, keys, next, chains)
    ensures BucketsOk(hash, size, heads[KeyIndex(hash, k, size) := At(|keys|)], keys + [k],
                      next + [heads[KeyIndex(hash, k, size)]],
                      chains[KeyIndex(hash, k, size) := [|keys|] + chains[KeyIndex(hash, k, size)]])
  {
    var b := KeyIndex(hash, k, size);
    var heads', keys', next' := heads[b := At(|keys|)], keys + [k], next + [heads[b]];
    var chains' := chains[b := [|keys|] + chains[b]];
    forall c | 0 <= c < size
      ensures Linked(next', heads'[c], chains'[c])
      ensures forall i :: 0 <= i < |chains'[c]| ==> KeyIndex(hash, keys'[chains'[c][i]], size) == c
    {
      assert forall i :: 0 <= i < |chains[c]| ==> chains[c][i] < |keys| && keys'[chains[c][i]] == keys[chains[c][i]];
      if c == b {
        LinkedPrepend(next, heads[b], chains[b]);
        assert forall i :: 0 < i < |chains'[c]| ==> chains'[c][i] == chains[c][i - 1];
      } else {
        LinkedExtend(next, heads[c], chains[c], heads[b]);
      }
    }
    forall n | 0 <= n < |keys'|
      ensures n in chains'[KeyIndex(hash, keys'[n], size)]
    {
      if n < |keys| {
        assert keys'[n] == keys[n];
        assert n in chains[KeyIndex(hash, keys[n], size)];
      }
    }
  }

  /** Appending an unlinked node with a fresh key to the arena of a well-formed
      list gives the state insert_sorted starts from. */
  lemma ListExtend(keys: seq<string>, values: seq<string>, sprev: seq<Ptr>, snext: seq<Ptr>,
                   head: Ptr, tail: Ptr, order: seq<nat>, k: string, v: string)
    requires ListOk(|keys|, keys, values, sprev, snext, head, tail, order)
    requires forall n :: 0 <= n < |keys| ==> keys[n] != k
    ensures Unlinked(|keys|, keys + [k], values + [v], sprev + [Null], snext + [Null], head, tail, order)
    ensures View(keys + [k], values + [v], order) == View(keys, values, order)
  {
    ThreadedExtend(sprev, snext, head, tail, order);
    var keys', values' := keys + [k], values + [v];
    assert forall i :: 0 <= i < |order| ==> keys'[order[i]] == keys[order[i]] && values'[order[i]] == values[order[i]];
    assert View(keys', values', order) == View(keys, values, order);
    assert forall n :: 0 <= n < |keys| ==> keys'[n] == keys[n];
  }

  /** Storing a new value in the node holding key keys[n] updates the entries of
      the list exactly as Update does. */
  lemma ViewUpdate(keys: seq<string>, values: seq<string>, order: seq<nat>, n: nat, v: string)
    requires |values| == |keys| && n < |keys|
    requires forall i :: 0 <= i < |order| ==> order[i] < |keys|
    requires forall m :: 0 <= m < |keys| && m != n ==> keys[m] != keys[n]
    ensures View(keys, values[n := v], order) == Update(View(keys, values, order), keys[n], v)
  {
  }

  /** Replacing a node's value keeps the sorted list well formed. */
  lemma ListUpdate(keys: seq<string>, values: seq<string>, sprev: seq<Ptr>, snext: seq<Ptr>,
                   head: Ptr, tail: Ptr, order: seq<nat>, n: nat, v: string)
    requires ListOk(|keys|, keys, values, sprev, snext, head, tail, order) && n < |keys|
    requires forall m :: 0 <= m < |keys| && m != n ==> keys[m] != keys[n]
    ensures ListOk(|keys|, keys, values[n := v], sprev, snext, head, tail, order)
    ensures View(keys, values[n := v], order) == Put(View(keys, values, order), keys[n], v)
  {
    var s := View(keys, values, order);
    assert n in order;
    var j :| 0 <= j < |order| && order[j] == n;
    FindAt(s, j);
    ViewUpdate(keys, values, order, n, v);
    FindUpdate(s, keys[n], v, keys[n]);
  }

  /** The bucket scan shared by shash_table_set and shash_table_get (source lines
      99-114 and 153-162): walk the chain of the key's bucket and stop at the node
      whose key is `key`, or at NULL. */
  method BucketLookup(ht: Table, key: string) returns (found: Ptr)
    requires ht.Valid()
    ensures found.At? ==> found.node < |ht.keys| && ht.keys[found.node] == key
    ensures found == Null <==> forall n :: 0 <= n < |ht.keys| ==> ht.keys[n] != key
    ensures found == Null ==> Find(ht.Items(), key).None?
  {
    var index := KeyIndex(ht.hash, key, ht.size);
    ghost var chain := ht.chains[index];
    found := ht.buckets[index];
    ghost var i := 0;
    while found != Null
      invariant 0 <= i <= |chain|
      invariant found == if i < |chain| then At(chain[i]) else Null
      invariant forall j :: 0 <= j < i ==> ht.keys[chain[j]] != key
      decreases |chain| - i
    {
      if Strcmp(ht.keys[found.node], key) == 0 {
        return;
      }
      found := ht.next[found.node];
      i := i + 1;
    }
    ht.AbsentFromBucket(key);
  }

  /** shash_table_get: the value stored under `key`, or NULL for a NULL table, a
      NULL or empty key, or a key the table does not hold. */
  method Get(ht: Table?, key: Option<string>) returns (r: Option<string>)
    requires ht != null ==> ht.Valid()
    ensures ht == null || key.None? || key.value == [] ==> r == None
    ensures ht != null && key.Some? && key.value != [] ==> r == Find(ht.Items(), key.value)
  {
    if ht == null || key.None? || key.value == [] {
      return None;
    }
    var node := BucketLookup(ht, key.value);
    if node == Null {
      return None;
    }
    ht.FindNode(node.node);
    return Some(ht.values[node.node]);
  }

  /** The existing-key path of shash_table_set once strdup has succeeded (source
      lines 109-111): node `n` gets the new value; links, keys and every other
      value stay as they were. */
  method SetValue(ht: Table, n: nat, value: string)
    requires ht.Valid() && n < |ht.keys|
    modifies ht
    ensures ht.Valid()
    ensures ht.Items() == Put(old(ht.Items()), old(ht.keys[n]), value)
    ensures n < |old(ht.values)| && ht.values == old(ht.values)[n := value]
    ensures ht.keys == old(ht.keys) && ht.next == old(ht.next) && ht.chains == old(ht.chains)
    ensures ht.sprev == old(ht.sprev) && ht.snext == old(ht.snext) && ht.order == old(ht.order)
    ensures ht.shead == old(ht.shead) && ht.stail == old(ht.stail)
  {
    ht.KeyUnique(n);
    ListUpdate(ht.keys, ht.values, ht.sprev, ht.snext, ht.shead, ht.stail, ht.order, n, value);
    ht.values := ht.values[n := value];
  }

  /** The new-key path of shash_table_set once its allocations have succeeded
      (source lines 119-133): the node takes the key and value, is prepended to
      the chain of its bucket, and is spliced into the sorted list. */
  method AddNode(ht: Table, key: string, value: string)
    requires ht.Valid() && key != []
    requires forall n :: 0 <= n < |ht.keys| ==> ht.keys[n] != key
    modifies ht, ht.buckets
    ensures ht.Valid()
    ensures ht.Items() == Splice(old(ht.Items()), Entry(key, value))
    ensures ht.keys == old(ht.keys) + [key] && ht.values == old(ht.values) + [value]
    ensures ht.buckets[KeyIndex(ht.hash, key, ht.size)] == At(|old(ht.keys)|)
    ensures ht.next == old(ht.next) + [old(ht.buckets[KeyIndex(ht.hash, key, ht.size)])]
    ensures ht.chains == old(ht.chains[KeyIndex(ht.hash, key, ht.size) := [|ht.keys|] + ht.chains[KeyIndex(ht.hash, key, ht.size)]])
    ensures forall b :: 0 <= b < ht.size && b != KeyIndex(ht.hash, key, ht.size) ==> ht.buckets[b] == old(ht.buckets[b])
  {
    var index := KeyIndex(ht.hash, key, ht.size);
    var node := |ht.keys|;
    ghost var heads := ht.buckets[..];
    BucketsPrepend(ht.hash, ht.size, heads, ht.keys, ht.next, ht.chains, key);
    ListExtend(ht.keys, ht.values, ht.sprev, ht.snext, ht.shead, ht.stail, ht.order, key, value);
    ht.keys, ht.values, ht.next, ht.sprev, ht.snext :=
      ht.keys + [key], ht.values + [value], ht.next + [ht.buckets[index]], ht.sprev + [Null], ht.snext + [Null];
    ht.buckets[index] := At(node);
    ht.chains := ht.chains[index := [node] + ht.chains[index]];
    assert ht.buckets[..] == heads[index := At(node)];
    InsertSorted(ht, node);
    assert ht.buckets[..] == heads[index := At(node)];
  }

  /** shash_table_set: store `value` under `key`. Returns 0 and changes nothing
      for a NULL table, a NULL or empty key, a NULL value, or a failed
      allocation (`allocOk` false); otherwise updates the key's node in place, or
      adds a node for a new key, and returns 1. */
  method Set(ht: Table?, key: Option<string>, value: Option<string>, allocOk: bool) returns (r: int)
    requires ht != null ==> ht.Valid()
    modifies if ht != null then {ht, ht.buckets} else {}
    ensures ht != null ==> ht.Valid()
    ensures r == 0 || r == 1
    ensures r == 1 <==> ht != null && key.Some? && key.value != [] && value.Some? && allocOk
    ensures r == 0 && ht != null ==> unchanged(ht) && unchanged(ht.buckets)
    ensures r == 1 ==> ht.Items() == Put(old(ht.Items()), key.value, value.value)
  {
    if ht == null || key.None? || key.value == [] || value.None? {
      return 0;
    }
    var found := BucketLookup(ht, key.value);
    if found.At? {
      if !allocOk {
        return 0;
      }
      SetValue(ht, found.node, value.value);
      return 1;
    }
    if !allocOk {
      return 0;
    }
    ghost var s := ht.Items();
    AddNode(ht, key.value, value.value);
    assert Find(s, key.value).None?;
    return 1;
  }

  /** shash_table_create: a table of `size` empty buckets, or NULL when an
      allocation fails (`allocOk` false). */
  method Create(size: nat, hash: string -> nat, allocOk: bool) returns (ht: Table?)
    requires size > 0
    ensures ht != null <==> allocOk
    ensures ht != null ==> fresh(ht) && fresh(ht.buckets) && ht.size == size && ht.hash == hash
    ensures ht != null ==> ht.Valid() && ht.Items() == []
  {
    if !allocOk {
      return null;
    }
    var heads := new Ptr[size];
    for i := 0 to size
      invariant forall b :: 0 <= b < i ==> heads[b] == Null
    {
      heads[i] := Null;
    }
    ht := new Table(size, hash, heads);
  }

  /** One step of the print loops: after the pairs of s[..i], a separator (unless
      none was printed yet) and the pair s[i] give the pairs of s[..i + 1]. */
  lemma PrintStep(s: seq<Entry>, i: nat, out: string)
    requires i < |s| && out == "{" + Joined(s[..i])
    ensures (if i > 0 then out + ", " else out) + Pair(s[i]) == "{" + Joined(s[..i + 1])
  {
    assert s[..i + 1][..i] == s[..i];
    if i > 0 {
      assert Joined(s[..i + 1]) == Joined(s[..i]) + ", " + Pair(s[i]);
    }
  }

  /** shash_table_print, with what it writes returned as a string: the pairs
      from shead to stail inside braces, or nothing for a NULL table. */
  method Print(ht: Table?) returns (out: string)
    requires ht != null ==> ht.Valid()
    ensures ht == null ==> out == []
    ensures ht != null ==> out == Format(ht.Items())
  {
    if ht == null {
      return [];
    }
    ghost var s := ht.Items();
    out := "{";
    var node := ht.shead;
    var comma := false;
    ghost var i := 0;
    while node != Null
      invariant 0 <= i <= |s|
      invariant node == if i < |s| then At(ht.order[i]) else Null
      invariant comma == (i > 0)
      invariant out == "{" + Joined(s[..i])
      decreases |s| - i
    {
      PrintStep(s, i, out);
      if comma {
        out := out + ", ";
      }
      out := out + Pair(Entry(ht.keys[node.node], ht.values[node.node]));
      comma := true;
      node := ht.snext[node.node];
      i := i + 1;
    }
    assert s[..i] == s;
    out := out + "}\n";
  }

  /** shash_table_print_rev, with what it writes returned as a string: the same
      pairs from stail back to shead, or nothing for a NULL table. */
  method PrintRev(ht: Table?) returns (out: string)
    requires ht != null ==> ht.Valid()
    ensures ht == null ==> out == []
    ensures ht != null ==> out == Format(Reverse(ht.Items()))
  {
    if ht == null {
      return [];
    }
    ghost var s := ht.Items();
    ghost var r := Reverse(s);
    ghost var n := |s|;
    out := "{";
    var node := ht.stail;
    var comma := false;
    ghost var i := 0;
    while node != Null
      invariant 0 <= i <= n
      invariant node == if i < n then At(ht.order[n - 1 - i]) else Null
      invariant comma == (i > 0)
      invariant out == "{" + Joined(r[..i])
      decreases n - i
    {
      ht.PrevOf(n - 1 - i);
      PrintStep(r, i, out);
      if comma {
        out := out + ", ";
      }
      out := out + Pair(Entry(ht.keys[node.node], ht.values[node.node]));
      comma := true;
      node := ht.sprev[node.node];
      i := i + 1;
    }
    assert r[..i] == r;
    out := out + "}\n";
  }

  /** shash_table_delete, as the order in which it frees the nodes: it walks the
      sorted list from shead, so every node of the table is freed, each once. */
  method Delete(ht: Table?) returns (freed: seq<nat>)
    requires ht != null ==> ht.Valid()
    ensures ht == null ==> freed == []
    ensures ht != null ==> |freed| == |ht.keys|
    ensures ht != null ==> forall n :: 0 <= n < |ht.keys| ==> n in freed
    ensures ht != null ==> forall i, j :: 0 <= i < j < |freed| ==> freed[i] != freed[j]
  {
    if ht == null {
      return [];
    }
    freed := [];
    var node := ht.shead;
    while node != Null
      invariant |freed| <= |ht.order|
      invariant freed == ht.order[..|freed|]
      invariant node == if |freed| < |ht.order| then At(ht.order[|freed|]) else Null
      decreases |ht.order| - |freed|
    {
      var tmp := ht.snext[node.node];
      freed := freed + [node.node];
      node := tmp;
    }
    assert freed == ht.order;
    LinkedDistinct(ht.snext, ht.shead, ht.order);
  }
}
