/** soj_queue.c over elist.h: an intrusive circular doubly linked list behind a freezable queue.
    A node stands for a tq_ent together with the list_head inside it; the head holds no data. */
module Queue {
  import opened Wrappers

  class Node<T> {
    var next: Node?<T>
    var prev: Node?<T>
    var data: Option<T>

    constructor (data: Option<T>)
      ensures this.data == data && next == this && prev == this
    {
      this.data := data;
      next, prev := this, this;
    }
  }

  ghost predicate Distinct<T>(s: seq<Node<T>>) {
    forall i, j :: 0 <= i < j < |s| ==> s[i] != s[j]
  }

  /** What tq_pop comes back with; it waits while the list is empty and the queue is not stopped, until the
      wait itself fails. */
  datatype PopResult<T> = Item(value: T) | Nothing | StillWaiting

  class ThreadQ<T> {
    const head: Node<T>
    var frozen: bool
    var stop: bool
    /** The linked nodes in order, and everything that ever went in and came out. */
    ghost var nodes: seq<Node<T>>
    ghost var accepted: seq<T>
    ghost var popped: seq<T>

    /** next and prev are mutually inverse around the ring head, nodes[0], nodes[1], ..., head. */
    ghost predicate Linked()
      reads this`nodes, head, nodes
    {
      && head !in nodes
      && Distinct(nodes)
      && (forall i {:trigger nodes[i].next} :: 0 <= i < |nodes| - 1 ==> nodes[i].next == nodes[i + 1])
      && (forall i {:trigger nodes[i].prev} :: 1 <= i < |nodes| ==> nodes[i].prev == nodes[i - 1])
      && if nodes == [] then head.next == head && head.prev == head
         else
           && head.next == nodes[0] && nodes[0].prev == head
           && head.prev == nodes[|nodes| - 1] && nodes[|nodes| - 1].next == head
    }

    ghost predicate Valid()
      reads this, head, nodes
    {
      Linked()
      && (forall i :: 0 <= i < |nodes| ==> nodes[i].data.Some?)
      && accepted == popped + Contents()
    }

    ghost function Contents(): (s: seq<T>)
      requires forall i :: 0 <= i < |nodes| ==> nodes[i].data.Some?
      reads this, nodes
      ensures |s| == |nodes|
    {
      seq(|nodes|, i requires 0 <= i < |nodes| && nodes[i].data.Some? reads this, nodes => nodes[i].data.value)
    }

    /** tq_new */
    constructor ()
      ensures Valid() && Contents() == [] && accepted == [] && popped == [] && !frozen && !stop
      ensures nodes == [] && fresh(head)
    {
      head := new Node<T>(None);
      frozen, stop := false, false;
      nodes, accepted, popped := [], [], [];
      new;
    }

    /** list_empty */
    predicate Empty()
      reads this, head
    {
      head.next == head
    }

    lemma EmptyMeansNoNodes()
      requires Linked()
      ensures Empty() <==> nodes == []
    {
    }

    /** list_add_tail */
    method AddTail(node: Node<T>)
      requires Linked() && node != head && node !in nodes
      modifies this`nodes, head, nodes, node
      ensures Linked() && nodes == old(nodes) + [node]
      ensures node.data == old(node.data)
      ensures forall n :: n in old(nodes) ==> n.data == old(n.data)
    {
      var prev, next := head.prev, head;
      next.prev := node;
      node.next := next;
      node.prev := prev;
      prev.next := node;
      nodes := nodes + [node];
    }

    /** list_del on the first node. */
    method DeleteFirst(entry: Node<T>)
      requires Linked() && nodes != [] && entry == nodes[0]
      modifies this`nodes, head, nodes
      ensures Linked() && nodes == old(nodes)[1..]
      ensures entry.next == null && entry.prev == null && entry.data == old(entry.data)
      ensures forall i :: 0 <= i < |nodes| ==> nodes[i].data == old(nodes[i + 1].data)
    {
      var prev, next := entry.prev, entry.next;
      next.prev := prev;
      prev.next := next;
      entry.next := null;
      entry.prev := null;
      nodes := nodes[1..];
    }

    /** tq_push: `memory` is whether calloc succeeded. */
    method Push(data: T, memory: bool) returns (ok: bool)
      requires Valid()
      modifies this`nodes, this`accepted, head, nodes
      ensures Valid() && popped == old(popped)
      ensures ok <==> memory && !frozen
      ensures Contents() == old(Contents()) + if ok then [data] else []
      ensures accepted == old(accepted) + if ok then [data] else []
      ensures !ok ==> nodes == old(nodes)
    {
      if !memory {
        return false;
      }
      var ent := new Node<T>(Some(data));
      if !frozen {
        ghost var before := Contents();
        AddTail(ent);
        accepted := accepted + [data];
        assert Contents() == before + [data];
        return true;
      }
      return false;
    }

    /** tq_pop, up to the point where it would wait: `waitFailed` is a wait that returned an error. */
    method Pop(waitFailed: bool) returns (r: PopResult<T>)
      requires Valid()
      modifies this`nodes, this`popped, head, nodes
      ensures Valid() && accepted == old(accepted)
      ensures r.Item? <==> old(Contents()) != []
      ensures r.Item? ==> r.value == old(Contents())[0] && Contents() == old(Contents())[1..]
                          && popped == old(popped) + [r.value]
      ensures !r.Item? ==> nodes == old(nodes) && popped == old(popped)
      ensures r.StillWaiting? <==> old(Contents()) == [] && !stop && !waitFailed
    {
      EmptyMeansNoNodes();
      if Empty() && !stop {
        if waitFailed {
          return Nothing;
        }
        return StillWaiting;
      }
      if Empty() {
        return Nothing;
      }
      var ent := head.next;
      ghost var before := Contents();
      DeleteFirst(ent);
      popped := popped + [ent.data.value];
      assert before == [before[0]] + before[1..];
      assert Contents() == before[1..];
      return Item(ent.data.value);
    }

    /** tq_freeze */
    method Freeze()
      modifies this`frozen
      ensures frozen
    {
      frozen := true;
    }

    /** The node at k, or the head after the last one. */
    ghost function NodeOrHead(all: seq<Node<T>>, k: nat): Node<T> {
      if k < |all| then all[k] else head
    }

    /** One pass of list_for_each_entry_safe: unlink and free the cursor, then move to the node saved ahead. */
    method FreeCurrent(ghost all: seq<Node<T>>, ghost k: nat, pos: Node<T>, n: Node<T>)
      returns (pos': Node<T>, n': Node<T>)
      requires Linked() && k < |all| && nodes == all[k..] && Distinct(all) && head !in all
      requires pos == all[k] && n == NodeOrHead(all, k + 1)
      modifies this`nodes, head, nodes
      ensures Linked() && nodes == all[k + 1..]
      ensures pos' == NodeOrHead(all, k + 1) && n' == pos'.next
      ensures pos.next == null && pos.prev == null
      ensures pos' !in all[..k + 1]
    {
      DeleteFirst(pos);
      pos' := n;
      n' := n.next;
    }

    /** The teardown of tq_free. Every remaining node is visited once, unlinked and freed, and neither the
        cursor nor the one saved ahead of it is ever a freed node. */
    method Free() returns (ghost visited: seq<Node<T>>)
      requires Linked()
      modifies this`nodes, this`stop, head, nodes
      ensures visited == old(nodes) && nodes == [] && Linked() && stop
      ensures forall i :: 0 <= i < |visited| ==> visited[i].next == null && visited[i].prev == null
    {
      hide Linked, Distinct;
      stop := true;
      RingFacts();
      ghost var all := nodes;
      ghost var k := 0;
      var pos := head.next;
      var n := pos.next;
      while pos != head
        invariant stop && k <= |all| && nodes == all[k..] && Linked()
        invariant pos == NodeOrHead(all, k) && n == pos.next
        invariant forall i :: 0 <= i < k ==> all[i].next == null && all[i].prev == null
        decreases |all| - k
      {
        RingFacts();
        pos, n := FreeCurrent(all, k, pos, n);
        k := k + 1;
      }
      InitHead();
      visited := all;
    }

    lemma RingFacts()
      requires Linked()
      ensures head.next == NodeOrHead(nodes, 0) && Distinct(nodes) && head !in nodes
      ensures nodes != [] ==> nodes[0].next == NodeOrHead(nodes, 1)
    {
    }

    /** INIT_LIST_HEAD on the queue's own head, once every node is gone. */
    method InitHead()
      requires nodes == []
      modifies head
      ensures Linked()
    {
      head.next := head;
      head.prev := head;
    }
  }
}
