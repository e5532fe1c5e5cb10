/** The intrusive circular list of `list.h`. */
module IntrusiveList {

  /** `struct list_head`. `container` is what `container_of` computes from the node's address. */
  class ListHead {
    var next: ListHead?
    var prev: ListHead?
    var container: object?

    constructor ()
      ensures next == null && prev == null
    {
      next, prev, container := null, null, null;
    }
  }

  /** The `i`th stop of a walk from the head through the nodes and back to it. */
  ghost function Stop(head: ListHead, nodes: seq<ListHead>, i: nat): ListHead
    requires i <= |nodes| + 1
  {
    if i == 0 || i == |nodes| + 1 then head else nodes[i - 1]
  }

  ghost predicate Distinct(head: ListHead, nodes: seq<ListHead>) {
    && head !in nodes
    && forall i, j :: 0 <= i < j < |nodes| ==> nodes[i] != nodes[j]
  }

  /** `next` and `prev` are mutually inverse on one cycle from the head through `nodes`. */
  ghost predicate Cycle(head: ListHead, nodes: seq<ListHead>)
    reads head`next, head`prev, nodes`next, nodes`prev
  {
    && Distinct(head, nodes)
    && (forall i :: 0 <= i <= |nodes| ==> Stop(head, nodes, i).next == Stop(head, nodes, i + 1))
    && (forall i :: 0 <= i <= |nodes| ==> Stop(head, nodes, i + 1).prev == Stop(head, nodes, i))
  }

  /** `INIT_LIST_HEAD`. */
  method InitListHead(list: ListHead)
    modifies list`next, list`prev
    ensures Cycle(list, []) && list.next == list.prev == list
  {
    list.next := list;
    list.prev := list;
    assert Stop(list, [], 0) == list && Stop(list, [], 1) == list;
  }

  /** `__list_add`. */
  method ListAddBetween(entry: ListHead, prev: ListHead, next: ListHead)
    requires entry != prev && entry != next
    modifies entry`next, entry`prev, prev`next, next`prev
    ensures entry.next == next && entry.prev == prev && prev.next == entry && next.prev == entry
    ensures prev != next ==> prev.prev == old(prev.prev) && next.next == old(next.next)
  {
    next.prev := entry;
    entry.next := next;
    entry.prev := prev;
    prev.next := entry;
  }

  /** `list_add_tail`. */
  method ListAddTail(entry: ListHead, head: ListHead, ghost nodes: seq<ListHead>)
    requires Cycle(head, nodes) && entry != head && entry !in nodes
    modifies entry`next, entry`prev, head`next, head`prev, nodes`next, nodes`prev
    ensures Cycle(head, nodes + [entry])
  {
    ghost var after := nodes + [entry];
    ghost var n := |nodes|;
    assert Stop(head, nodes, n + 1).prev == Stop(head, nodes, n);
    assert head.prev != null;
    ListAddBetween(entry, head.prev, head);
    assert forall i :: 0 <= i <= n ==> Stop(head, after, i) == Stop(head, nodes, i);
    assert Stop(head, after, n + 1) == entry && Stop(head, after, n + 2) == head;
    forall i | 0 <= i <= n + 1 ensures Stop(head, after, i).next == Stop(head, after, i + 1) {
      if i < n {
        assert old(Stop(head, nodes, i).next) == Stop(head, nodes, i + 1);
      }
    }
    forall i | 0 <= i <= n + 1 ensures Stop(head, after, i + 1).prev == Stop(head, after, i) {
      if i < n {
        assert old(Stop(head, nodes, i + 1).prev) == Stop(head, nodes, i);
      }
    }
  }

  /** `list_empty`. */
  method ListEmpty(head: ListHead, ghost nodes: seq<ListHead>) returns (empty: bool)
    requires Cycle(head, nodes)
    ensures empty <==> nodes == []
  {
    assert Stop(head, nodes, 0).next == Stop(head, nodes, 1);
    empty := head.next == head;
  }

  ghost function Without(nodes: seq<ListHead>, k: nat): seq<ListHead>
    requires k < |nodes|
  {
    nodes[..k] + nodes[k + 1..]
  }

  /** `list_del` of the `k`th node, also where it is the only one. */
  method ListDel(entry: ListHead, ghost head: ListHead, ghost nodes: seq<ListHead>, ghost k: nat)
    requires Cycle(head, nodes) && k < |nodes| && nodes[k] == entry
    modifies head`next, head`prev, nodes`next, nodes`prev
    ensures Cycle(head, Without(nodes, k))
    ensures entry.next == entry.prev == null
  {
    ghost var after := Without(nodes, k);
    ghost var n := |nodes|;
    assert Stop(head, nodes, k + 1) == entry;
    assert entry.next == Stop(head, nodes, k + 2) by {
      assert Stop(head, nodes, k + 1).next == Stop(head, nodes, k + 1 + 1);
    }
    assert entry.prev == Stop(head, nodes, k) by {
      assert Stop(head, nodes, k + 1).prev == Stop(head, nodes, k);
    }
    var next, prev := entry.next, entry.prev;
    next.prev := prev;
    prev.next := next;
    entry.next := null;
    entry.prev := null;
    assert forall i :: 0 <= i <= k ==> Stop(head, after, i) == Stop(head, nodes, i);
    assert forall i :: k < i <= n ==> Stop(head, after, i) == Stop(head, nodes, i + 1);
    forall i | 0 <= i <= n - 1 ensures Stop(head, after, i).next == Stop(head, after, i + 1) {
      if i < k {
        assert old(Stop(head, nodes, i).next) == Stop(head, nodes, i + 1);
      } else if k < i {
        assert old(Stop(head, nodes, i + 1).next) == Stop(head, nodes, i + 1 + 1);
      }
    }
    forall i | 0 <= i <= n - 1 ensures Stop(head, after, i + 1).prev == Stop(head, after, i) {
      if i < k {
        assert old(Stop(head, nodes, i + 1).prev) == Stop(head, nodes, i);
      } else if k < i {
        assert old(Stop(head, nodes, i + 1 + 1).prev) == Stop(head, nodes, i + 1);
      }
    }
  }

  /** `list_for_each`: visits the nodes in order, each once, and ends. */
  method ListForEach(head: ListHead, ghost nodes: seq<ListHead>) returns (visited: seq<ListHead>)
    requires Cycle(head, nodes)
    ensures visited == nodes
  {
    visited := [];
    assert Stop(head, nodes, 0).next == Stop(head, nodes, 0 + 1);
    var pos := head.next;
    while pos != head
      invariant |visited| <= |nodes| && visited == nodes[..|visited|]
      invariant pos == Stop(head, nodes, |visited| + 1)
      decreases |nodes| - |visited|
    {
      visited := visited + [pos];
      assert Stop(head, nodes, |visited|).next == Stop(head, nodes, |visited| + 1);
      pos := pos.next;
    }
  }
}
