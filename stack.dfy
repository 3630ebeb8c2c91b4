/**
 * The singly linked list of Queue_Stack/Stack.c and the stack built on it, which pushes and pops
 * at the head. Elements are integers. The ghost sequence `nodes` lists the list's nodes from the
 * head on, and `contents` their elements.
 */
module Stack {

  import opened Options

  /** ll_node_t */
  class Node {
    var data: int
    var next: Node?

    constructor (data: int, next: Node?)
      ensures this.data == data && this.next == next
    {
      this.data := data;
      this.next := next;
    }
  }

  /** The C's clamp of a position to at most `bound`. */
  function Clamp(n: nat, bound: nat): (k: nat)
    ensures k <= n && k <= bound && (k == n || k == bound)
  {
    if n > bound then bound else n
  }

  /** linked_list_t: `head` and `size`. */
  class LinkedList {
    var head: Node?
    var size: nat
    ghost var nodes: seq<Node>
    ghost var contents: seq<int>

    /** `head` is the first node, each node's `next` is the one after it and the last one's is
      * NULL, no node occurs twice, and `size` counts them. */
    ghost predicate Valid()
      reads this, nodes
    {
      size == |nodes| == |contents| &&
      head == (if |nodes| == 0 then null else nodes[0]) &&
      (forall i :: 0 <= i < |nodes| ==> nodes[i].data == contents[i]) &&
      (forall i {:trigger nodes[i].next} :: 0 <= i < |nodes| ==>
         nodes[i].next == if i + 1 < |nodes| then nodes[i + 1] else null) &&
      (forall i, j :: 0 <= i < j < |nodes| ==> nodes[i] != nodes[j])
    }

    /** ll_create: no head, size 0. */
    constructor ()
      ensures Valid() && head == null && size == 0 && contents == [] && nodes == []
    {
      head := null;
      size := 0;
      nodes := [];
      contents := [];
    }

    /** ll_get_size */
    function GetSize(): (r: nat)
      reads this, nodes
      requires Valid()
      ensures r == |contents|
    {
      size
    }

    /**
     * ll_add_nth_node: a position past the end becomes the end; `prev` and `curr` walk to it,
     * and a new node holding `x` is linked in between (as the head when `prev` stays NULL).
     */
    method AddNth(n: nat, x: int)
      requires Valid()
      modifies this, nodes
      ensures Valid()
      ensures var k := Clamp(n, old(size));
        contents == old(contents)[..k] + [x] + old(contents)[k..] &&
        |nodes| == |old(nodes)| + 1 && nodes == old(nodes)[..k] + [nodes[k]] + old(nodes)[k..] &&
        fresh(nodes[k])
    {
      var m := Clamp(n, size);
      ghost var k := 0;
      var curr := head;
      var prev: Node? := null;
      while m > 0
        invariant Valid() && nodes == old(nodes)
        invariant 0 <= k <= |nodes| && k + m == Clamp(n, size)
        invariant curr == (if k < |nodes| then nodes[k] else null)
        invariant prev == (if k == 0 then null else nodes[k - 1])
        decreases m
      {
        prev := curr;
        curr := curr.next;
        m := m - 1;
        k := k + 1;
      }
      assert k == Clamp(n, old(size));
      LinkIn(prev, curr, k, x);
    }

    /** The relinking that ends ll_add_nth_node: a new node holding `x` goes in at position `k`,
      * before `curr` and after `prev` (or as the head when there is none). */
    method LinkIn(prev: Node?, curr: Node?, ghost k: nat, x: int)
      requires Valid() && k <= |nodes|
      requires curr == (if k < |nodes| then nodes[k] else null)
      requires prev == (if k == 0 then null else nodes[k - 1])
      modifies this, nodes
      ensures Valid()
      ensures contents == old(contents)[..k] + [x] + old(contents)[k..] &&
        |nodes| == |old(nodes)| + 1 && nodes == old(nodes)[..k] + [nodes[k]] + old(nodes)[k..] &&
        fresh(nodes[k])
    {
      ghost var ns, cs := nodes, contents;
      label Walked:
      var node := new Node(x, curr);
      if prev == null {
        head := node;
      } else {
        prev.next := node;
      }
      size := size + 1;
      nodes := ns[..k] + [node] + ns[k..];
      contents := cs[..k] + [x] + cs[k..];
      forall i | 0 <= i < |nodes|
        ensures nodes[i].data == contents[i]
        ensures nodes[i].next == if i + 1 < |nodes| then nodes[i + 1] else null
      {
        if i < k {
          assert nodes[i] == ns[i] && contents[i] == cs[i] && ns[i] != node;
          assert old@Walked(ns[i].data) == cs[i];
          if i < k - 1 {
            assert ns[i] != prev && nodes[i + 1] == ns[i + 1];
            assert old@Walked(ns[i].next) == ns[i + 1];
          }
        } else if i > k {
          assert nodes[i] == ns[i - 1] && contents[i] == cs[i - 1] && ns[i - 1] != node;
          assert k == 0 || ns[i - 1] != prev;
          assert old@Walked(ns[i - 1].data) == cs[i - 1];
          assert old@Walked(ns[i - 1].next) == if i < |ns| then ns[i] else null;
        }
      }
    }

    /**
     * ll_remove_nth_node: NULL on an empty list; otherwise a position past the end becomes the
     * last one, that node is unlinked (the head moving on when it is the first) and returned.
     */
    method RemoveNth(n: nat) returns (r: Node?)
      requires Valid()
      modifies this, nodes
      ensures Valid()
      ensures old(size) == 0 ==> r == null && nodes == old(nodes) && contents == old(contents)
      ensures old(size) > 0 ==> var k := Clamp(n, old(size) - 1);
        r == old(nodes)[k] && r.data == old(contents)[k] &&
        nodes == old(nodes)[..k] + old(nodes)[k + 1..] &&
        contents == old(contents)[..k] + old(contents)[k + 1..]
    {
      if head == null {
        return null;
      }
      var m := Clamp(n, size - 1);
      ghost var k := 0;
      var curr := head;
      var prev: Node? := null;
      while m > 0
        invariant Valid() && nodes == old(nodes)
        invariant 0 <= k < |nodes| && k + m == Clamp(n, size - 1)
        invariant curr == nodes[k]
        invariant prev == (if k == 0 then null else nodes[k - 1])
        decreases m
      {
        prev := curr;
        curr := curr.next;
        m := m - 1;
        k := k + 1;
      }
      Unlink(prev, curr, k);
      return curr;
    }

    /** The relinking that ends ll_remove_nth_node: `curr`, the node at position `k`, leaves the
      * chain, its predecessor `prev` (or `head` when there is none) taking over its `next`. */
    method Unlink(prev: Node?, curr: Node, ghost k: nat)
      requires Valid() && k < |nodes| && curr == nodes[k]
      requires prev == (if k == 0 then null else nodes[k - 1])
      modifies this, nodes
      ensures Valid()
      ensures nodes == old(nodes)[..k] + old(nodes)[k + 1..]
      ensures contents == old(contents)[..k] + old(contents)[k + 1..]
      ensures curr.data == old(curr.data)
    {
      ghost var ns := nodes;
      if prev == null {
        head := curr.next;
      } else {
        prev.next := curr.next;
      }
      size := size - 1;
      nodes := ns[..k] + ns[k + 1..];
      contents := contents[..k] + contents[k + 1..];
      forall i | 0 <= i < |nodes|
        ensures nodes[i].next == if i + 1 < |nodes| then nodes[i + 1] else null
      {
        if i < k - 1 {
          assert nodes[i] == ns[i] != prev;
          assert ns[i].next == old(ns[i].next);
        } else if i >= k {
          assert nodes[i] == ns[i + 1] && (k == 0 || ns[i + 1] != prev);
          assert ns[i + 1].next == old(ns[i + 1].next);
        }
      }
    }
  }

  /** struct Stack: a linked list whose head is the top. */
  class Stack {
    var list: LinkedList

    ghost predicate Valid()
      reads this, list, list.nodes
    {
      list.Valid()
    }

    /** The elements, top first. */
    ghost function Contents(): seq<int>
      reads this, list
    {
      list.contents
    }

    /** init_stack: an empty list. */
    constructor ()
      ensures Valid() && Contents() == [] && list.head == null && list.size == 0 && fresh(list)
    {
      list := new LinkedList();
    }

    /** get_size_stack */
    function GetSize(): (r: int)
      reads this, list, list.nodes
      requires Valid()
      ensures r == |Contents()|
    {
      list.size
    }

    /** is_empty_stack: 1 exactly when the stack holds nothing. */
    function IsEmpty(): (r: int)
      reads this, list, list.nodes
      requires Valid()
      ensures r == 0 || r == 1
      ensures r == 1 <==> Contents() == []
    {
      if list.size == 0 then 1 else 0
    }

    /** peek_stack: the top element, or NULL (None) on an empty stack. */
    function Peek(): (r: Option<int>)
      reads this, list, list.nodes
      requires Valid()
      ensures r.None? <==> Contents() == []
      ensures r.Some? ==> r.value == Contents()[0]
    {
      if list.size == 0 then None else Some(list.head.data)
    }

    /** pop_stack: drops the top element; an empty stack is left alone. */
    method Pop()
      requires Valid()
      modifies list, list.nodes
      ensures Valid()
      ensures Contents() == if old(Contents()) == [] then [] else old(Contents())[1..]
      ensures list.nodes == if old(list.nodes) == [] then [] else old(list.nodes)[1..]
    {
      if list.size != 0 {
        var _ := list.RemoveNth(0);
      }
    }

    /** push_stack: the new element goes in at the head and becomes the top. */
    method Push(x: int)
      requires Valid()
      modifies list, list.nodes
      ensures Valid() && Contents() == [x] + old(Contents())
      ensures Peek() == Some(x)
    {
      list.AddNth(0, x);
    }

    /** clear_stack: pops until the list is empty. */
    method Clear()
      requires Valid()
      modifies list, list.nodes
      ensures Valid() && Contents() == []
    {
      while list.size != 0
        invariant Valid()
        invariant list.nodes == old(list.nodes)[|old(list.nodes)| - |list.nodes|..]
        decreases list.size
      {
        Pop();
      }
    }
  }
}
