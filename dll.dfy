/**
 * The doubly linked list of listaDubluInlantuita/lista_dublu_inlantuita.c: NULL-terminated in
 * both directions, with `head` and `size`; and `sum_lists`, which adds two natural numbers kept
 * as lists of base-10 digits, least significant first. Elements are integers. The ghost sequence
 * `nodes` lists the nodes from the head on, and `contents` their elements.
 */
module Dll {

  import opened Options

  /** dll_node_t: a freshly allocated one has both links NULL. */
  class Node {
    var data: int
    var prev: Node?
    var next: Node?

    constructor (data: int)
      ensures this.data == data && prev == null && next == null
    {
      this.data := data;
      prev := null;
      next := null;
    }
  }

  lemma ModSmall(x: int, m: int)
    requires 0 <= x < m
    ensures x % m == x
  {
  }

  function Min(a: int, b: int): int
  {
    if a < b then a else b
  }

  /** A node that is not in a list of distinct nodes can join it at any position. */
  lemma InsertDistinct(ns: seq<Node>, k: nat, node: Node)
    requires k <= |ns| && node !in ns
    requires forall i, j :: 0 <= i < j < |ns| ==> ns[i] != ns[j]
    ensures var s := ns[..k] + [node] + ns[k..];
      forall i, j :: 0 <= i < j < |s| ==> s[i] != s[j]
  {
    var s := ns[..k] + [node] + ns[k..];
    forall i, j | 0 <= i < j < |s|
      ensures s[i] != s[j]
    {
      if i < k {
        assert s[i] == ns[i];
      } else if i > k {
        assert s[i] == ns[i - 1];
      }
      if j < k {
        assert s[j] == ns[j];
      } else if j > k {
        assert s[j] == ns[j - 1];
      }
    }
  }

  /** Dropping a node from a list of distinct nodes leaves them distinct. */
  lemma RemoveDistinct(ns: seq<Node>, k: nat)
    requires k < |ns|
    requires forall i, j :: 0 <= i < j < |ns| ==> ns[i] != ns[j]
    ensures var s := ns[..k] + ns[k + 1..];
      forall i, j :: 0 <= i < j < |s| ==> s[i] != s[j]
  {
    var s := ns[..k] + ns[k + 1..];
    forall i, j | 0 <= i < j < |s|
      ensures s[i] != s[j]
    {
      assert s[i] == if i < k then ns[i] else ns[i + 1];
      assert s[j] == if j < k then ns[j] else ns[j + 1];
    }
  }

  /** doubly_linked_list_t */
  class DoublyLinkedList {
    var head: Node?
    var size: nat
    ghost var nodes: seq<Node>
    ghost var contents: seq<int>

    /** The forward reading of the list: `head` is the first node, each node's `next` is the one
      * after it, NULL after the last, and `size` counts them. */
    ghost predicate Forward()
      reads this, nodes
    {
      size == |nodes| == |contents| &&
      head == (if |nodes| == 0 then null else nodes[0]) &&
      (forall i :: 0 <= i < |nodes| ==> nodes[i].data == contents[i]) &&
      (forall i {:trigger nodes[i].next} :: 0 <= i < |nodes| ==>
         nodes[i].next == if i + 1 < |nodes| then nodes[i + 1] else null)
    }

    /** Read forward as above; besides, each node's `prev` is the one before it, NULL at the
      * head, and no node occurs twice. */
    ghost predicate Valid()
      reads this, nodes
    {
      Forward() &&
      (forall i {:trigger nodes[i].prev} :: 0 <= i < |nodes| ==>
         nodes[i].prev == if i > 0 then nodes[i - 1] else null) &&
      (forall i, j :: 0 <= i < j < |nodes| ==> nodes[i] != nodes[j])
    }

    /** dll_create: no head, size 0. */
    constructor ()
      ensures Valid() && head == null && size == 0 && contents == [] && nodes == []
    {
      head := null;
      size := 0;
      nodes := [];
      contents := [];
    }

    /** dll_get_size */
    function GetSize(): (r: nat)
      reads this, nodes
      requires Valid()
      ensures r == |contents|
    {
      size
    }

    /** dll_get_nth_node: the position is taken modulo the size, then the walk starts at the
      * head. The C divides by zero on an empty list. */
    method GetNth(n: nat) returns (r: Node)
      requires Valid() && size > 0
      ensures r == nodes[n % size] && r.data == contents[n % size]
    {
      var m := n % size;
      r := head;
      var i := 0;
      while i < m
        invariant 0 <= i <= m && r == nodes[i]
      {
        r := r.next;
        i := i + 1;
      }
    }

    /**
     * dll_add_nth_node: at position 0, or into an empty list, the new node becomes the head
     * (AddFirst); otherwise a position past the end becomes the end, and the new node is linked
     * in after the node before that position (AddAfter).
     */
    method AddNth(n: nat, x: int)
      requires Valid()
      modifies this, nodes
      ensures Valid()
      ensures var k := Min(n, old(size));
        contents == old(contents)[..k] + [x] + old(contents)[k..] &&
        |nodes| == |old(nodes)| + 1 && nodes == old(nodes)[..k] + [nodes[k]] + old(nodes)[k..] &&
        fresh(nodes[k])
    {
      if n == 0 || size == 0 {
        AddFirst(x);
        assert old(contents)[..0] == [] && old(contents)[0..] == old(contents);
        assert old(nodes)[..0] == [] && old(nodes)[0..] == old(nodes);
      } else {
        var k := if n >= size then size else n;
        var last := GetNth(k - 1);
        ModSmall(k - 1, size);
        AddAfter(last, k, x);
      }
    }

    /** The first branch of dll_add_nth_node: a new head whose `next` is the old head, which
      * gets the new node as its `prev`. */
    method AddFirst(x: int)
      requires Valid()
      modifies this, nodes
      ensures Valid()
      ensures contents == [x] + old(contents) && |nodes| == |old(nodes)| + 1 &&
        nodes == [nodes[0]] + old(nodes) && fresh(nodes[0])
    {
      ghost var ns, cs := nodes, contents;
      label Start:
      var node := new Node(x);
      node.next := head;
      if head != null {
        head.prev := node;
      }
      head := node;
      size := size + 1;
      nodes := [node] + ns;
      contents := [x] + cs;
      forall i | 0 < i < |nodes|
        ensures nodes[i].data == contents[i]
        ensures nodes[i].next == if i + 1 < |nodes| then nodes[i + 1] else null
        ensures nodes[i].prev == nodes[i - 1]
      {
        assert nodes[i] == ns[i - 1] && contents[i] == cs[i - 1] && ns[i - 1] != node;
        assert old@Start(ns[i - 1].data) == cs[i - 1];
        assert old@Start(ns[i - 1].next) == if i < |ns| then ns[i] else null;
        if i > 1 {
          assert ns[i - 1] != ns[0];
          assert old@Start(ns[i - 1].prev) == ns[i - 2];
        }
      }
      forall i, j | 0 <= i < j < |nodes|
        ensures nodes[i] != nodes[j]
      {
        assert nodes[j] == ns[j - 1] != node;
        if i > 0 {
          assert nodes[i] == ns[i - 1];
        }
      }
    }

    /** The second branch of dll_add_nth_node: the new node goes between `last`, the node at
      * position `k - 1`, and its successor, if any. */
    method AddAfter(last: Node, k: nat, x: int)
      requires Valid() && 0 < k <= size && last == nodes[k - 1]
      modifies this, nodes
      ensures Valid()
      ensures contents == old(contents)[..k] + [x] + old(contents)[k..] &&
        |nodes| == |old(nodes)| + 1 && nodes == old(nodes)[..k] + [nodes[k]] + old(nodes)[k..] &&
        fresh(nodes[k])
    {
      ghost var ns, cs := nodes, contents;
      label Start:
      var node := new Node(x);
      if last.next != null {
        last.next.prev := node;
      }
      node.next := last.next;
      node.prev := last;
      last.next := node;
      size := size + 1;
      nodes := ns[..k] + [node] + ns[k..];
      contents := cs[..k] + [x] + cs[k..];
      forall i | 0 <= i < |nodes|
        ensures nodes[i].data == contents[i]
        ensures nodes[i].next == if i + 1 < |nodes| then nodes[i + 1] else null
        ensures nodes[i].prev == if i > 0 then nodes[i - 1] else null
      {
        if i < k {
          assert nodes[i] == ns[i] && contents[i] == cs[i] && ns[i] != node;
          assert old@Start(ns[i].data) == cs[i];
          assert old@Start(ns[i].prev) == if i > 0 then ns[i - 1] else null;
          assert k < |ns| ==> ns[i] != ns[k];
          if i < k - 1 {
            assert nodes[i + 1] == ns[i + 1] && ns[i] != ns[k - 1];
            assert old@Start(ns[i].next) == ns[i + 1];
          }
        } else if i > k {
          assert nodes[i] == ns[i - 1] && contents[i] == cs[i - 1] && ns[i - 1] != node;
          assert ns[i - 1] != ns[k - 1];
          assert old@Start(ns[i - 1].data) == cs[i - 1];
          assert old@Start(ns[i - 1].next) == if i < |ns| then ns[i] else null;
          if i > k + 1 {
            assert ns[i - 1] != ns[k];
            assert old@Start(ns[i - 1].prev) == ns[i - 2];
          }
        }
      }
      InsertDistinct(ns, k, node);
    }

    /**
     * dll_remove_nth_node as it is evidently meant: a position past the end becomes the last
     * one; that node is unlinked (the head moving on when it is the first, and the list becoming
     * empty when it was the only one) and returned. See RemoveNthAsWritten for the C.
     */
    method RemoveNth(n: nat) returns (r: Node)
      requires Valid() && size > 0
      modifies this, nodes
      ensures Valid()
      ensures var k := Min(n, old(size) - 1);
        r == old(nodes)[k] && r.data == old(contents)[k] &&
        nodes == old(nodes)[..k] + old(nodes)[k + 1..] &&
        contents == old(contents)[..k] + old(contents)[k + 1..]
    {
      ghost var ns, cs := nodes, contents;
      var k := if n > size - 1 then size - 1 else n;
      r := GetNth(k);
      ModSmall(k, size);
      label Found:
      if k == 0 {
        head := head.next;
        if head != null {
          head.prev := null;
        }
      } else if k == size - 1 {
        r.prev.next := null;
      } else {
        r.prev.next := r.next;
        r.next.prev := r.prev;
      }
      size := size - 1;
      nodes := ns[..k] + ns[k + 1..];
      contents := cs[..k] + cs[k + 1..];
      RemoveDistinct(ns, k);
      forall i | 0 <= i < |nodes|
        ensures nodes[i].data == contents[i]
        ensures nodes[i].next == if i + 1 < |nodes| then nodes[i + 1] else null
        ensures nodes[i].prev == if i > 0 then nodes[i - 1] else null
      {
        if i < k {
          assert nodes[i] == ns[i] && contents[i] == cs[i] && ns[i] != ns[k];
          assert old@Found(ns[i].data) == cs[i];
          assert old@Found(ns[i].prev) == if i > 0 then ns[i - 1] else null;
          assert k + 1 < |ns| ==> ns[i] != ns[k + 1];
          if i < k - 1 {
            assert nodes[i + 1] == ns[i + 1] && ns[i] != ns[k - 1];
            assert old@Found(ns[i].next) == ns[i + 1];
          }
        } else {
          assert nodes[i] == ns[i + 1] && contents[i] == cs[i + 1] && ns[i + 1] != ns[k];
          assert k == 0 || ns[i + 1] != ns[k - 1];
          assert old@Found(ns[i + 1].data) == cs[i + 1];
          assert old@Found(ns[i + 1].next) == if i + 2 < |ns| then ns[i + 2] else null;
          if i > k {
            assert ns[i + 1] != ns[k + 1];
            assert old@Found(ns[i + 1].prev) == ns[i];
          }
        }
      }
    }
  }

  /**
   * Which node dll_remove_nth_node unlinks as written, None when it dereferences NULL or divides
   * by zero: on an empty list; on a one-node list, where the new head NULL gets its `prev`
   * written; and when `n == size`, which the clamp `n > size` lets through (lines 71-72) to the
   * middle branch, where the walk wraps to the head and reads the head's NULL `prev`.
   */
  function RemoveNthAsWritten(size: nat, n: nat): (r: Option<nat>)
    ensures r.Some? ==> r.value < size
  {
    if size == 0 then None
    else
      var m := if n > size then size - 1 else n;
      if m == 0 then (if size == 1 then None else Some(0))
      else if m == size - 1 then Some(m)
      else if m == size then None
      else Some(m)
  }

  /** The C fails exactly on lists of fewer than two nodes and at `n == size`, and otherwise
    * unlinks the node RemoveNth does. */
  lemma RemoveNthAsWrittenSpec(size: nat, n: nat)
    ensures RemoveNthAsWritten(size, n).Some? <==> size >= 2 && n != size
    ensures RemoveNthAsWritten(size, n).Some? ==> RemoveNthAsWritten(size, n).value == Min(n, size - 1)
  {
  }

  // ---------------------------------------------------------------------------------------
  // sum_lists (lines 132-159)

  /** C's `/ 10` on int, which truncates toward zero. */
  function Div10(x: int): (q: int)
    ensures x >= 0 ==> 0 <= q <= x
  {
    if x >= 0 then x / 10 else -((-x) / 10)
  }

  /** C's `% 10` on int: the remainder that goes with Div10. */
  function Mod10(x: int): (r: int)
    ensures x == 10 * Div10(x) + r
    ensures x >= 0 ==> 0 <= r < 10
  {
    x - 10 * Div10(x)
  }

  function Head(s: seq<int>): int
  {
    if |s| > 0 then s[0] else 0
  }

  function Tail(s: seq<int>): (t: seq<int>)
    ensures |t| == if |s| > 0 then |s| - 1 else 0
  {
    if |s| > 0 then s[1..] else s
  }

  /** The number a digit list stands for, least significant digit first. */
  function Value(s: seq<int>): int
  {
    if |s| == 0 then 0 else s[0] + 10 * Value(s[1..])
  }

  function Pow10(n: nat): (p: int)
    ensures p >= 1
  {
    if n == 0 then 1 else 10 * Pow10(n - 1)
  }

  ghost predicate Digits(s: seq<int>)
  {
    forall i :: 0 <= i < |s| ==> 0 <= s[i] <= 9
  }

  function Max(a: int, b: int): int
  {
    if a < b then b else a
  }

  /**
   * The digits sum_lists appends: while either list has digits, the digit of the two current
   * digits plus the carry (a missing digit counting as 0), the quotient becoming the next carry;
   * then the carry itself when it is not 0.
   */
  function SumDigits(a: seq<int>, b: seq<int>, carry: int): (r: seq<int>)
    ensures Max(|a|, |b|) <= |r| <= Max(|a|, |b|) + 1
    decreases |a| + |b|
  {
    if |a| == 0 && |b| == 0 then (if carry != 0 then [carry] else [])
    else
      var s := Head(a) + Head(b) + carry;
      [Mod10(s)] + SumDigits(Tail(a), Tail(b), Div10(s))
  }

  lemma ValueSplit(s: seq<int>)
    ensures Value(s) == Head(s) + 10 * Value(Tail(s))
  {
  }

  /** The digits stand for the sum of the two numbers and the carry, whatever the digits. */
  lemma {:induction false} SumValue(a: seq<int>, b: seq<int>, carry: int)
    ensures Value(SumDigits(a, b, carry)) == Value(a) + Value(b) + carry
    decreases |a| + |b|
  {
    if |a| > 0 || |b| > 0 {
      var s := Head(a) + Head(b) + carry;
      SumValue(Tail(a), Tail(b), Div10(s));
      ValueSplit(a);
      ValueSplit(b);
      var r := SumDigits(a, b, carry);
      assert r[1..] == SumDigits(Tail(a), Tail(b), Div10(s));
    }
  }

  /** A list of `n` digits stands for less than 10^n. */
  lemma {:induction false} ValueBound(s: seq<int>)
    requires Digits(s)
    ensures 0 <= Value(s) < Pow10(|s|)
  {
    if |s| > 0 {
      assert Digits(s[1..]) by {
        forall i | 0 <= i < |s| - 1 ensures 0 <= s[1..][i] <= 9 {
          assert s[1..][i] == s[i + 1];
        }
      }
      ValueBound(s[1..]);
    }
  }

  lemma DigitsTail(s: seq<int>)
    requires Digits(s)
    ensures Digits(Tail(s)) && 0 <= Head(s) <= 9
  {
    if |s| > 0 {
      forall i | 0 <= i < |s| - 1 ensures 0 <= Tail(s)[i] <= 9 {
        assert Tail(s)[i] == s[i + 1];
      }
    }
  }

  /** On digit lists and a carry of 0 or 1, every output digit is a digit. */
  lemma {:induction false} SumIsDigits(a: seq<int>, b: seq<int>, carry: int)
    requires Digits(a) && Digits(b) && 0 <= carry <= 1
    ensures Digits(SumDigits(a, b, carry))
    decreases |a| + |b|
  {
    var r := SumDigits(a, b, carry);
    if |a| > 0 || |b| > 0 {
      var s := Head(a) + Head(b) + carry;
      DigitsTail(a);
      DigitsTail(b);
      SumIsDigits(Tail(a), Tail(b), Div10(s));
      assert r[1..] == SumDigits(Tail(a), Tail(b), Div10(s));
      forall i | 0 <= i < |r| ensures 0 <= r[i] <= 9 {
        if i > 0 {
          assert r[i] == r[1..][i - 1];
        }
      }
    }
  }

  /**
   * On digit lists and a carry of 0 or 1, the output is as long as the longer input, plus one
   * digit exactly when the sum needs it.
   */
  lemma {:induction false} SumLength(a: seq<int>, b: seq<int>, carry: int)
    requires Digits(a) && Digits(b) && 0 <= carry <= 1
    ensures |SumDigits(a, b, carry)| ==
      Max(|a|, |b|) + (if Value(a) + Value(b) + carry >= Pow10(Max(|a|, |b|)) then 1 else 0)
    decreases |a| + |b|
  {
    if |a| > 0 || |b| > 0 {
      var s := Head(a) + Head(b) + carry;
      DigitsTail(a);
      DigitsTail(b);
      SumLength(Tail(a), Tail(b), Div10(s));
      ValueSplit(a);
      ValueSplit(b);
      var m := Max(|Tail(a)|, |Tail(b)|);
      assert Max(|a|, |b|) == m + 1 && Pow10(m + 1) == 10 * Pow10(m);
      var x := Value(Tail(a)) + Value(Tail(b)) + Div10(s);
      assert Value(a) + Value(b) + carry == Mod10(s) + 10 * x;
      if x >= Pow10(m) {
        assert Value(a) + Value(b) + carry >= Pow10(Max(|a|, |b|));
      } else {
        assert Value(a) + Value(b) + carry < Pow10(Max(|a|, |b|));
      }
    }
  }

  /** The correctness of sum_lists: the output stands for the sum of the inputs and, when they
    * are digit lists, is one too, of the length above. */
  lemma SumSpec(a: seq<int>, b: seq<int>)
    ensures Value(SumDigits(a, b, 0)) == Value(a) + Value(b)
    ensures Digits(a) && Digits(b) ==>
      Digits(SumDigits(a, b, 0)) &&
      |SumDigits(a, b, 0)| == Max(|a|, |b|) + (if Value(a) + Value(b) >= Pow10(Max(|a|, |b|)) then 1 else 0)
  {
    SumValue(a, b, 0);
    if Digits(a) && Digits(b) {
      SumIsDigits(a, b, 0);
      SumLength(a, b, 0);
    }
  }

  /**
   * The digits sum_lists' loops append from positions `i` of `a` and `j` of `b` on, `carry`
   * in hand: the column walk of SumDigits, by position.
   */
  function SumFrom(a: seq<int>, b: seq<int>, i: nat, j: nat, carry: int): seq<int>
    requires i <= |a| && j <= |b|
    decreases |a| - i + |b| - j
  {
    if i == |a| && j == |b| then (if carry != 0 then [carry] else [])
    else
      var s := (if i < |a| then a[i] else 0) + (if j < |b| then b[j] else 0) + carry;
      [Mod10(s)] + SumFrom(a, b, if i < |a| then i + 1 else i, if j < |b| then j + 1 else j, Div10(s))
  }

  /** Walking by position gives the digits of the remaining lists. */
  lemma {:induction false} SumFromSpec(a: seq<int>, b: seq<int>, i: nat, j: nat, carry: int)
    requires i <= |a| && j <= |b|
    ensures SumFrom(a, b, i, j, carry) == SumDigits(a[i..], b[j..], carry)
    decreases |a| - i + |b| - j
  {
    if i < |a| || j < |b| {
      var i', j' := if i < |a| then i + 1 else i, if j < |b| then j + 1 else j;
      var s := (if i < |a| then a[i] else 0) + (if j < |b| then b[j] else 0) + carry;
      SumFromSpec(a, b, i', j', Div10(s));
      assert Head(a[i..]) + Head(b[j..]) + carry == s;
      assert Tail(a[i..]) == a[i'..] && Tail(b[j..]) == b[j'..];
    }
  }

  /** After `done` has been appended, the lists from positions `i` and `j` on and the carry
    * still give the rest of the sum's digits. */
  ghost predicate SumSoFar(a: seq<int>, b: seq<int>, i: nat, j: nat, carry: int, done: seq<int>)
  {
    i <= |a| && j <= |b| && done + SumFrom(a, b, i, j, carry) == SumFrom(a, b, 0, 0, 0)
  }

  /** One column of sum_lists' loops: its digit is appended and its quotient carried. */
  lemma SumStep(a: seq<int>, b: seq<int>, i: nat, j: nat, i': nat, j': nat, carry: int, s: int,
                 done: seq<int>)
    requires SumSoFar(a, b, i, j, carry, done) && (i < |a| || j < |b|)
    requires i' == (if i < |a| then i + 1 else i) && j' == (if j < |b| then j + 1 else j)
    requires s == (if i < |a| then a[i] else 0) + (if j < |b| then b[j] else 0) + carry
    ensures SumSoFar(a, b, i', j', Div10(s), done + [Mod10(s)])
  {
    var rest := SumFrom(a, b, i', j', Div10(s));
    assert SumFrom(a, b, i, j, carry) == [Mod10(s)] + rest;
    assert done + ([Mod10(s)] + rest) == (done + [Mod10(s)]) + rest;
  }

  /** Appending at position `size` puts the element last. */
  lemma AppendAt(old_: seq<int>, k: nat, x: int)
    requires k == |old_|
    ensures old_[..k] + [x] + old_[k..] == old_ + [x]
  {
  }

  /** The node at position `i` of a list, NULL once past its end. */
  function At(ns: seq<Node>, i: nat): (r: Node?)
    ensures r == null <==> i >= |ns|
  {
    if i < |ns| then ns[i] else null
  }

  /**
   * sum_lists: the digits of the sum, appended in order to a new list, which stands for the
   * sum of the two numbers.
   */
  method SumLists(a: DoublyLinkedList, b: DoublyLinkedList) returns (c: DoublyLinkedList)
    requires a.Forward() && b.Forward()
    ensures fresh(c) && c.Valid() && c.contents == SumDigits(a.contents, b.contents, 0)
    ensures Value(c.contents) == Value(a.contents) + Value(b.contents)
  {
    var digits := SumColumns(a, b);
    SumValue(a.contents, b.contents, 0);
    c := FromDigits(digits);
  }

  /**
   * The three loops of sum_lists: both lists together while both have nodes, then whichever is
   * longer, each column giving a digit and carrying the quotient; a carry left at the end is a
   * last digit.
   */
  method SumColumns(a: DoublyLinkedList, b: DoublyLinkedList) returns (digits: seq<int>)
    requires a.Forward() && b.Forward()
    ensures digits == SumDigits(a.contents, b.contents, 0)
  {
    ghost var an, bn, ac, bc := a.nodes, b.nodes, a.contents, b.contents;
    var ita, itb := a.head, b.head;
    ghost var i, j := 0, 0;
    var carry := 0;
    digits := [];
    while ita != null && itb != null
      invariant 0 <= i <= |an| && 0 <= j <= |bn|
      invariant ita == At(an, i)
      invariant itb == At(bn, j)
      invariant SumSoFar(ac, bc, i, j, carry, digits)
      decreases |an| - i
    {
      var s := ita.data + itb.data + carry;
      SumStep(ac, bc, i, j, i + 1, j + 1, carry, s, digits);
      digits := digits + [Mod10(s)];
      carry := Div10(s);
      ita, itb := ita.next, itb.next;
      i, j := i + 1, j + 1;
    }
    while ita != null
      invariant 0 <= i <= |an| && 0 <= j <= |bn| && (ita == null || itb == null)
      invariant ita == At(an, i)
      invariant itb == At(bn, j)
      invariant SumSoFar(ac, bc, i, j, carry, digits)
      decreases |an| - i
    {
      var s := ita.data + carry;
      SumStep(ac, bc, i, j, i + 1, j, carry, s, digits);
      digits := digits + [Mod10(s)];
      carry := Div10(s);
      ita := ita.next;
      i := i + 1;
    }
    while itb != null
      invariant i == |an| && 0 <= j <= |bn| && ita == null
      invariant itb == At(bn, j)
      invariant SumSoFar(ac, bc, i, j, carry, digits)
      decreases |bn| - j
    {
      var s := itb.data + carry;
      SumStep(ac, bc, i, j, i, j + 1, carry, s, digits);
      digits := digits + [Mod10(s)];
      carry := Div10(s);
      itb := itb.next;
      j := j + 1;
    }
    if carry != 0 {
      digits := digits + [carry];
    }
    SumFromSpec(ac, bc, 0, 0, 0);
    assert ac[0..] == ac && bc[0..] == bc;
  }

  /** The new list of sum_lists: each digit appended in turn with `dll_add_nth_node(c, c->size, …)`. */
  method FromDigits(digits: seq<int>) returns (c: DoublyLinkedList)
    ensures fresh(c) && c.Valid() && c.contents == digits
  {
    c := new DoublyLinkedList();
    var k := 0;
    while k < |digits|
      invariant 0 <= k <= |digits|
      invariant fresh(c) && c.Valid() && c.contents == digits[..k]
      invariant forall m :: 0 <= m < |c.nodes| ==> fresh(c.nodes[m])
    {
      Append(c, digits[k]);
      assert digits[..k + 1] == digits[..k] + [digits[k]];
      k := k + 1;
    }
    assert digits[..k] == digits;
  }

  /** `dll_add_nth_node(c, c->size, &x)`: `x` goes at the end of `c`. */
  method Append(c: DoublyLinkedList, x: int)
    requires c.Valid()
    modifies c, c.nodes
    ensures c.Valid() && c.contents == old(c.contents) + [x]
    ensures |c.nodes| == |old(c.nodes)| + 1 && c.nodes == old(c.nodes) + [c.nodes[|old(c.nodes)|]]
    ensures fresh(c.nodes[|old(c.nodes)|])
  {
    ghost var n0 := c.nodes;
    AppendAt(c.contents, c.size, x);
    c.AddNth(c.size, x);
    assert n0[..|n0|] == n0 && n0[|n0|..] == [];
  }
}
