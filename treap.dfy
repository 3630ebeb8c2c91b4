/**
 * The treap of treap/treap.c: a binary search tree on the records that is at the same time a
 * max-heap on the nodes' priorities. The C draws each priority with `rand() % MAX_PRIORITY`;
 * here the priority of a new node is an input.
 */
module Treap {

  import opened Options

  /** MAX_PRIORITY: priorities lie in 0 .. MaxPriority - 1. */
  const MaxPriority := 1000

  /** treap_node_t: record, priority, left and right child. */
  datatype Tree = Nil | Node(left: Tree, key: int, prio: int, right: Tree)

  /** `priority`: -1 for an absent child, so that any node outranks it. */
  function Prio(t: Tree): (p: int)
    ensures t.Nil? ==> p == -1
  {
    if t.Nil? then -1 else t.prio
  }

  function Keys(t: Tree): set<int>
  {
    if t.Nil? then {} else Keys(t.left) + {t.key} + Keys(t.right)
  }

  function Inorder(t: Tree): seq<int>
  {
    if t.Nil? then [] else Inorder(t.left) + [t.key] + Inorder(t.right)
  }

  function Count(t: Tree): nat
  {
    if t.Nil? then 0 else Count(t.left) + 1 + Count(t.right)
  }

  ghost predicate Ordered(t: Tree)
  {
    t.Nil? ||
    (Ordered(t.left) && Ordered(t.right) &&
     (forall x :: x in Keys(t.left) ==> x < t.key) &&
     (forall x :: x in Keys(t.right) ==> t.key < x))
  }

  /** Max-heap order: no child outranks its parent. */
  ghost predicate Heap(t: Tree)
  {
    t.Nil? || (Heap(t.left) && Heap(t.right) && Prio(t.left) <= t.prio && Prio(t.right) <= t.prio)
  }

  /** Every priority is one `rand() % MAX_PRIORITY` can produce. */
  ghost predicate InRange(t: Tree)
  {
    t.Nil? || (InRange(t.left) && InRange(t.right) && 0 <= t.prio < MaxPriority)
  }

  ghost predicate IsTreap(t: Tree)
  {
    Ordered(t) && Heap(t) && InRange(t)
  }

  function Max(a: int, b: int): int { if a < b then b else a }

  // ---------------------------------------------------------------------------------------
  // Rotations (treap.c:145-169), on the subtree held in the slot `*node`

  /** __rotate_right: the left child becomes the subtree's root. */
  function RotateRight(t: Tree): (r: Tree)
    requires t.Node? && t.left.Node?
    ensures r.Node? && r.key == t.left.key && r.prio == t.left.prio && r.right.Node?
    ensures r.right.key == t.key && r.right.prio == t.prio
    ensures Inorder(r) == Inorder(t) && Keys(r) == Keys(t)
    ensures Count(r.right) < Count(t)
  {
    var l := t.left;
    Node(l.left, l.key, l.prio, Node(l.right, t.key, t.prio, t.right))
  }

  /** __rotate_left: the right child becomes the subtree's root. */
  function RotateLeft(t: Tree): (r: Tree)
    requires t.Node? && t.right.Node?
    ensures r.Node? && r.key == t.right.key && r.prio == t.right.prio && r.left.Node?
    ensures r.left.key == t.key && r.left.prio == t.prio
    ensures Inorder(r) == Inorder(t) && Keys(r) == Keys(t)
    ensures Count(r.left) < Count(t)
  {
    var r := t.right;
    Node(Node(t.left, t.key, t.prio, r.left), r.key, r.prio, r.right)
  }

  lemma RotateRightOrdered(t: Tree)
    requires t.Node? && t.left.Node? && Ordered(t)
    ensures Ordered(RotateRight(t))
  {
    var l := t.left;
    assert Keys(l.right) <= Keys(l);
    assert Ordered(Node(l.right, t.key, t.prio, t.right));
  }

  lemma RotateLeftOrdered(t: Tree)
    requires t.Node? && t.right.Node? && Ordered(t)
    ensures Ordered(RotateLeft(t))
  {
    var r := t.right;
    assert Keys(r.left) <= Keys(r);
    assert Ordered(Node(t.left, t.key, t.prio, r.left));
  }

  // ---------------------------------------------------------------------------------------
  // Insertion (treap.c:179-208)

  /**
   * __treap_insert: an empty slot gets a new leaf with priority `p`; otherwise the insert goes
   * down the side the comparison picks and, coming back, rotates the child up when it now
   * outranks the node. An equal record stops the descent.
   */
  function Inserted(t: Tree, k: int, p: int): (r: Tree)
    ensures r.Node? && Keys(r) == Keys(t) + {k}
    decreases t
  {
    if t.Nil? then Node(Nil, k, p, Nil)
    else if k < t.key then
      var t' := t.(left := Inserted(t.left, k, p));
      if Prio(t') < Prio(t'.left) then RotateRight(t') else t'
    else if k > t.key then
      var t' := t.(right := Inserted(t.right, k, p));
      if Prio(t') < Prio(t'.right) then RotateLeft(t') else t'
    else t
  }

  lemma {:induction false} InsertOrdered(t: Tree, k: int, p: int)
    requires Ordered(t)
    ensures Ordered(Inserted(t, k, p))
    decreases t
  {
    if t.Node? && k < t.key {
      InsertOrdered(t.left, k, p);
      var t' := t.(left := Inserted(t.left, k, p));
      if Prio(t') < Prio(t'.left) {
        RotateRightOrdered(t');
      }
    } else if t.Node? && k > t.key {
      InsertOrdered(t.right, k, p);
      var t' := t.(right := Inserted(t.right, k, p));
      if Prio(t') < Prio(t'.right) {
        RotateLeftOrdered(t');
      }
    }
  }

  /**
   * Inserting into a heap gives a heap whose root is either the old root or the new node; in
   * the second case the new node's children rank no higher than the old root, which is what
   * lets the caller's rotation restore the heap order one level up.
   */
  lemma {:induction false} InsertHeap(t: Tree, k: int, p: int)
    requires Heap(t) && InRange(t) && 0 <= p < MaxPriority
    ensures var r := Inserted(t, k, p);
      Heap(r) && InRange(r) &&
      ((t.Node? && r.key == t.key && r.prio == t.prio) ||
       (r.key == k && r.prio == p && Prio(r.left) <= Prio(t) && Prio(r.right) <= Prio(t)))
    decreases t
  {
    if t.Node? && k < t.key {
      InsertHeap(t.left, k, p);
      InsertHeapLeft(t, k, p, Inserted(t.left, k, p));
    } else if t.Node? && k > t.key {
      InsertHeap(t.right, k, p);
      InsertHeapRight(t, k, p, Inserted(t.right, k, p));
    }
  }

  /** treap.c:187-190: the grown left child is stored, and rotated up when it outranks `t`. */
  lemma InsertHeapLeft(t: Tree, k: int, p: int, l: Tree)
    requires t.Node? && Heap(t) && InRange(t) && 0 <= p < MaxPriority
    requires l.Node? && Heap(l) && InRange(l)
    requires (t.left.Node? && l.key == t.left.key && l.prio == t.left.prio) ||
             (l.key == k && l.prio == p && Prio(l.left) <= Prio(t.left) && Prio(l.right) <= Prio(t.left))
    ensures var t' := t.(left := l);
      var r := if Prio(t') < Prio(t'.left) then RotateRight(t') else t';
      Heap(r) && InRange(r) &&
      ((r.key == t.key && r.prio == t.prio) ||
       (r.key == k && r.prio == p && Prio(r.left) <= Prio(t) && Prio(r.right) <= Prio(t)))
  {
    var t' := t.(left := l);
    if Prio(t') < Prio(t'.left) {
      assert Heap(RotateRight(t').right);
    }
  }

  lemma InsertHeapRight(t: Tree, k: int, p: int, r: Tree)
    requires t.Node? && Heap(t) && InRange(t) && 0 <= p < MaxPriority
    requires r.Node? && Heap(r) && InRange(r)
    requires (t.right.Node? && r.key == t.right.key && r.prio == t.right.prio) ||
             (r.key == k && r.prio == p && Prio(r.left) <= Prio(t.right) && Prio(r.right) <= Prio(t.right))
    ensures var t' := t.(right := r);
      var u := if Prio(t') < Prio(t'.right) then RotateLeft(t') else t';
      Heap(u) && InRange(u) &&
      ((u.key == t.key && u.prio == t.prio) ||
       (u.key == k && u.prio == p && Prio(u.left) <= Prio(t) && Prio(u.right) <= Prio(t)))
  {
    var t' := t.(right := r);
    if Prio(t') < Prio(t'.right) {
      assert Heap(RotateLeft(t').left);
    }
  }

  /** In a treap, inserting a record already present changes nothing. */
  lemma {:induction false} InsertPresent(t: Tree, k: int, p: int)
    requires Ordered(t) && Heap(t) && k in Keys(t)
    ensures Inserted(t, k, p) == t
    decreases t
  {
    if k < t.key {
      InsertPresent(t.left, k, p);
    } else if k > t.key {
      InsertPresent(t.right, k, p);
    }
  }

  lemma InsertSpec(t: Tree, k: int, p: int)
    requires IsTreap(t) && 0 <= p < MaxPriority
    ensures IsTreap(Inserted(t, k, p)) && Keys(Inserted(t, k, p)) == Keys(t) + {k}
    ensures k in Keys(t) ==> Inserted(t, k, p) == t
  {
    InsertOrdered(t, k, p);
    InsertHeap(t, k, p);
    if k in Keys(t) {
      InsertPresent(t, k, p);
    }
  }

  // ---------------------------------------------------------------------------------------
  // Deletion (treap.c:216-258)

  /**
   * __treap_delete as it is evidently meant: a missing record (an empty slot reached) changes
   * nothing; a matching leaf goes, a matching node with one child is replaced by it, and a
   * matching node with two children is rotated down under its higher-ranked child and the
   * deletion continues below. See DeleteAsWritten for the empty slot.
   */
  function Deleted(t: Tree, k: int): (r: Tree)
    ensures Keys(r) <= Keys(t)
    decreases Count(t)
  {
    if t.Nil? then Nil
    else if k < t.key then t.(left := Deleted(t.left, k))
    else if k > t.key then t.(right := Deleted(t.right, k))
    else if t.left.Nil? && t.right.Nil? then Nil
    else if t.right.Nil? then t.left
    else if t.left.Nil? then t.right
    else if Prio(t.left) < Prio(t.right) then
      var t' := RotateLeft(t);
      t'.(left := Deleted(t'.left, k))
    else
      var t' := RotateRight(t);
      t'.(right := Deleted(t'.right, k))
  }

  lemma {:induction false} DeleteOrdered(t: Tree, k: int)
    requires Ordered(t)
    ensures Ordered(Deleted(t, k)) && Keys(Deleted(t, k)) == Keys(t) - {k}
    ensures k !in Keys(t) ==> Deleted(t, k) == t
    decreases Count(t)
  {
    if t.Node? {
      if k < t.key {
        DeleteOrdered(t.left, k);
      } else if k > t.key {
        DeleteOrdered(t.right, k);
      } else if t.left.Node? && t.right.Node? {
        if Prio(t.left) < Prio(t.right) {
          var t' := RotateLeft(t);
          RotateLeftOrdered(t);
          DeleteOrdered(t'.left, k);
          assert k !in Keys(t'.right);
        } else {
          var t' := RotateRight(t);
          RotateRightOrdered(t);
          DeleteOrdered(t'.right, k);
          assert k !in Keys(t'.left);
        }
      }
    }
  }

  /**
   * Deleting from a heap gives a heap with the same root when the root's record is not the one
   * deleted, and otherwise a root ranked no higher than the better of the two children: so the
   * node rotated up over the deleted one still outranks what is left below it.
   */
  lemma {:induction false} DeleteHeap(t: Tree, k: int)
    requires Heap(t) && InRange(t)
    ensures var r := Deleted(t, k);
      Heap(r) && InRange(r) &&
      (t.Node? && k != t.key ==> r.Node? && r.key == t.key && r.prio == t.prio) &&
      (t.Node? && k == t.key ==> Prio(r) <= Max(Prio(t.left), Prio(t.right)))
    decreases Count(t)
  {
    if t.Node? {
      if k < t.key {
        DeleteHeap(t.left, k);
      } else if k > t.key {
        DeleteHeap(t.right, k);
      } else if t.left.Node? && t.right.Node? {
        if Prio(t.left) < Prio(t.right) {
          var t' := RotateLeft(t);
          assert Heap(t'.left);
          DeleteHeap(t'.left, k);
        } else {
          var t' := RotateRight(t);
          assert Heap(t'.right);
          DeleteHeap(t'.right, k);
        }
      }
    }
  }

  lemma DeleteSpec(t: Tree, k: int)
    requires IsTreap(t)
    ensures IsTreap(Deleted(t, k)) && Keys(Deleted(t, k)) == Keys(t) - {k}
    ensures k !in Keys(t) ==> Deleted(t, k) == t
  {
    DeleteOrdered(t, k);
    DeleteHeap(t, k);
  }

  /** __treap_delete as written: it compares against `(*node)->data` before looking at whether
    * the slot is empty (treap.c:218), so reaching an empty slot dereferences NULL (None). */
  function DeleteAsWritten(t: Tree, k: int): (r: Option<Tree>)
    ensures t.Nil? ==> r.None?
    ensures r.Some? ==> Keys(r.value) <= Keys(t)
    decreases Count(t)
  {
    if t.Nil? then None
    else if k < t.key then
      match DeleteAsWritten(t.left, k) case None => None case Some(l) => Some(t.(left := l))
    else if k > t.key then
      match DeleteAsWritten(t.right, k) case None => None case Some(r) => Some(t.(right := r))
    else if t.left.Nil? && t.right.Nil? then Some(Nil)
    else if t.right.Nil? then Some(t.left)
    else if t.left.Nil? then Some(t.right)
    else if Prio(t.left) < Prio(t.right) then
      var t' := RotateLeft(t);
      match DeleteAsWritten(t'.left, k) case None => None case Some(l) => Some(t'.(left := l))
    else
      var t' := RotateRight(t);
      match DeleteAsWritten(t'.right, k) case None => None case Some(r) => Some(t'.(right := r))
  }

  /** In a search tree the C's deletion succeeds exactly when the record is present, and then
    * agrees with Deleted. */
  lemma {:induction false} DeleteAsWrittenAgrees(t: Tree, k: int)
    requires Ordered(t)
    ensures DeleteAsWritten(t, k).Some? <==> k in Keys(t)
    ensures k in Keys(t) ==> DeleteAsWritten(t, k) == Some(Deleted(t, k))
    decreases Count(t)
  {
    if t.Node? {
      if k < t.key {
        DeleteAsWrittenAgrees(t.left, k);
      } else if k > t.key {
        DeleteAsWrittenAgrees(t.right, k);
      } else if t.left.Node? && t.right.Node? {
        if Prio(t.left) < Prio(t.right) {
          RotateLeftOrdered(t);
          DeleteAsWrittenAgrees(RotateLeft(t).left, k);
        } else {
          RotateRightOrdered(t);
          DeleteAsWrittenAgrees(RotateRight(t).right, k);
        }
      }
    }
  }

  /** Deleting 5 from the empty treap, or from the one-node treap holding 3, reads through NULL. */
  lemma DeleteAbsentAsWritten()
    ensures DeleteAsWritten(Nil, 5) == None
    ensures DeleteAsWritten(Node(Nil, 3, 0, Nil), 5) == None
    ensures Deleted(Node(Nil, 3, 0, Nil), 5) == Node(Nil, 3, 0, Nil)
  {
  }

  // ---------------------------------------------------------------------------------------
  // Lookup (treap.c:268-288)

  /** __get_key: the stored record equal to `k`, or NULL (None) once an empty slot is reached. */
  function GetKey(t: Tree, k: int): (r: Option<int>)
    ensures r.Some? ==> r.value == k && k in Keys(t)
    decreases t
  {
    if t.Nil? then None
    else if k < t.key then GetKey(t.left, k)
    else if k > t.key then GetKey(t.right, k)
    else Some(t.key)
  }

  lemma {:induction false} GetKeyComplete(t: Tree, k: int)
    requires Ordered(t)
    ensures GetKey(t, k).Some? <==> k in Keys(t)
    decreases t
  {
    if t.Node? && k < t.key {
      GetKeyComplete(t.left, k);
    } else if t.Node? && k > t.key {
      GetKeyComplete(t.right, k);
    }
  }

  // ---------------------------------------------------------------------------------------
  // The tree header (treap_tree_t)

  class TreapTree {
    var root: Tree

    ghost predicate Valid()
      reads this
    {
      IsTreap(root)
    }

    /** treap_create: an empty treap. */
    constructor ()
      ensures Valid() && root == Nil
    {
      root := Nil;
    }

    /** treap_insert, with `p` the priority the new node would draw. */
    method Insert(k: int, p: int)
      requires Valid() && 0 <= p < MaxPriority
      modifies this
      ensures Valid() && Keys(root) == old(Keys(root)) + {k}
      ensures k in old(Keys(root)) ==> root == old(root)
      ensures root == Inserted(old(root), k, p)
    {
      InsertSpec(root, k, p);
      root := Inserted(root, k, p);
    }

    /** treap_delete, with an absent record leaving the treap as it is (the C dereferences NULL
      * then; see DeleteAsWritten). */
    method Delete(k: int)
      requires Valid()
      modifies this
      ensures Valid() && Keys(root) == old(Keys(root)) - {k}
      ensures k !in old(Keys(root)) ==> root == old(root)
      ensures root == Deleted(old(root), k)
    {
      DeleteSpec(root, k);
      root := Deleted(root, k);
    }

    /** get_key. */
    function Get(k: int): (r: Option<int>)
      reads this
      requires Valid()
      ensures r.Some? <==> k in Keys(root)
      ensures r.Some? ==> r.value == k
    {
      GetKeyComplete(root, k);
      GetKey(root, k)
    }
  }
}
