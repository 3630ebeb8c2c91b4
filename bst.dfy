/**
 * The plain binary search tree of ABC_AVL/bst.c: an iterative insert and a recursive remove
 * that hands back the new subtree. Records are integers under their natural order.
 */
module Bst {

  import opened Options

  /** bst_node_t: left child, record, right child. */
  datatype Tree = Nil | Node(left: Tree, key: int, right: Tree)

  function Keys(t: Tree): set<int>
  {
    if t.Nil? then {} else Keys(t.left) + {t.key} + Keys(t.right)
  }

  /** __bst_tree_print_inorder's visiting order: left subtree, record, right subtree. */
  function Inorder(t: Tree): seq<int>
  {
    if t.Nil? then [] else Inorder(t.left) + [t.key] + Inorder(t.right)
  }

  ghost predicate Ordered(t: Tree)
  {
    t.Nil? ||
    (Ordered(t.left) && Ordered(t.right) &&
     (forall x :: x in Keys(t.left) ==> x < t.key) &&
     (forall x :: x in Keys(t.right) ==> t.key < x))
  }

  ghost predicate Increasing(s: seq<int>)
  {
    forall i, j :: 0 <= i < j < |s| ==> s[i] < s[j]
  }

  // ---------------------------------------------------------------------------------------
  // Insertion (bst.c:76-101)

  /** Where bst_tree_insert attaches `k`: the absent child reached by going left past greater
    * records and right past smaller ones; an equal record stops it with no change. */
  function Inserted(t: Tree, k: int): (r: Tree)
    ensures r.Node? && Keys(r) == Keys(t) + {k}
    decreases t
  {
    if t.Nil? then Node(Nil, k, Nil)
    else if t.key > k then t.(left := Inserted(t.left, k))
    else if t.key < k then t.(right := Inserted(t.right, k))
    else t
  }

  /** One step of the descent: the node left behind, and on which side the walk went on. */
  datatype Step = WentLeft(key: int, right: Tree) | WentRight(left: Tree, key: int)

  /** Rebuilds the tree from the descent `path` (top first) around the subtree `t` it reached. */
  function Plug(path: seq<Step>, t: Tree): Tree
    decreases |path|
  {
    if |path| == 0 then t
    else
      var s := path[|path| - 1];
      var t' := if s.WentLeft? then Node(t, s.key, s.right) else Node(s.left, s.key, t);
      Plug(path[..|path| - 1], t')
  }

  lemma {:induction false} InsertedOrdered(t: Tree, k: int)
    requires Ordered(t)
    ensures Ordered(Inserted(t, k))
    decreases t
  {
    if t.Node? && t.key > k {
      InsertedOrdered(t.left, k);
    } else if t.Node? && t.key < k {
      InsertedOrdered(t.right, k);
    }
  }

  /** An equal record already on the search path leaves the tree as it was; in a search tree,
    * that is exactly when the key is present. */
  lemma {:induction false} InsertedPresent(t: Tree, k: int)
    requires Ordered(t)
    ensures Inserted(t, k) == t <==> k in Keys(t)
    decreases t
  {
    if t.Node? && t.key > k {
      InsertedPresent(t.left, k);
    } else if t.Node? && t.key < k {
      InsertedPresent(t.right, k);
    }
  }

  // ---------------------------------------------------------------------------------------
  // Removal (bst.c:110-168)

  /** The predecessor unlink of bst.c:142-148 as it is evidently meant: the rightmost node of
    * the non-empty subtree `t` is cut out, its left subtree taking its place. */
  function SpliceMax(t: Tree): (res: (Tree, int))
    requires t.Node?
    ensures Inorder(res.0) + [res.1] == Inorder(t) && Keys(res.0) + {res.1} == Keys(t)
    decreases t
  {
    if t.right.Nil? then (t.left, t.key)
    else
      var (r, m) := SpliceMax(t.right);
      (t.(right := r), m)
  }

  /** The `while (tmp->right)` walk of bst.c:142-148 from a two-child node `n`, with `parent`
    * trailing `tmp`; the unlink is written to the slot that leads to `tmp`, so that it computes
    * SpliceMax of the left subtree. */
  method UnlinkPredecessor(n: Tree) returns (l: Tree, p: int)
    requires n.Node? && n.left.Node?
    ensures (l, p) == SpliceMax(n.left)
  {
    var path: seq<Step> := [];
    var tmp := n.left;
    while tmp.right.Node?
      invariant tmp.Node?
      invariant SpliceMax(n.left) == (Plug(path, SpliceMax(tmp).0), SpliceMax(tmp).1)
      decreases tmp
    {
      assert Plug(path + [WentRight(tmp.left, tmp.key)], SpliceMax(tmp.right).0)
          == Plug(path, SpliceMax(tmp).0);
      path := path + [WentRight(tmp.left, tmp.key)];
      tmp := tmp.right;
    }
    l := Plug(path, tmp.left);
    p := tmp.key;
  }

  /**
   * __bst_tree_remove: an absent key leaves every subtree as it was; a matching leaf becomes
   * NULL, a matching node with one child is replaced by that child, and a matching node with
   * two children keeps its place, takes its predecessor's record and loses the predecessor.
   */
  function Removed(t: Tree, k: int): (r: Tree)
    ensures Keys(r) <= Keys(t)
    decreases t
  {
    if t.Nil? then Nil
    else if k < t.key then t.(left := Removed(t.left, k))
    else if k > t.key then t.(right := Removed(t.right, k))
    else if t.left.Nil? && t.right.Nil? then Nil
    else if t.left.Nil? then t.right
    else if t.right.Nil? then t.left
    else
      var (l, p) := SpliceMax(t.left);
      Node(l, p, t.right)
  }

  lemma {:induction false} SpliceMaxOrdered(t: Tree)
    requires t.Node? && Ordered(t)
    ensures var (l, p) := SpliceMax(t);
      Ordered(l) && Keys(l) == Keys(t) - {p} && (forall x :: x in Keys(l) ==> x < p)
    decreases t
  {
    if t.right.Node? {
      SpliceMaxOrdered(t.right);
    }
  }

  /** Removal from a search tree keeps it one, takes out exactly `k`, and leaves the tree as it
    * was when `k` is absent. */
  lemma {:induction false} RemoveSpec(t: Tree, k: int)
    requires Ordered(t)
    ensures Ordered(Removed(t, k)) && Keys(Removed(t, k)) == Keys(t) - {k}
    ensures k !in Keys(t) ==> Removed(t, k) == t
    decreases t
  {
    if t.Node? {
      if k < t.key {
        RemoveSpec(t.left, k);
      } else if k > t.key {
        RemoveSpec(t.right, k);
      } else if t.left.Node? && t.right.Node? {
        SpliceMaxOrdered(t.left);
      }
    }
  }

  /** A search tree's in-order sequence ascends strictly. */
  lemma {:induction false} InorderIncreasing(t: Tree)
    requires Ordered(t)
    ensures Increasing(Inorder(t)) && (forall x :: x in Inorder(t) <==> x in Keys(t))
    decreases t
  {
    if t.Node? {
      InorderIncreasing(t.left);
      InorderIncreasing(t.right);
      var a, b := Inorder(t.left), Inorder(t.right);
      var s := Inorder(t);
      assert s == a + [t.key] + b;
      forall i, j | 0 <= i < j < |s|
        ensures s[i] < s[j]
      {
        if j < |a| {
          assert s[i] == a[i] && s[j] == a[j];
        } else if i < |a| {
          assert s[i] == a[i] && a[i] in Keys(t.left);
          if j > |a| {
            assert s[j] == b[j - |a| - 1] && b[j - |a| - 1] in Keys(t.right);
          }
        } else if i == |a| {
          assert s[j] == b[j - |a| - 1] && b[j - |a| - 1] in Keys(t.right);
        } else {
          assert s[i] == b[i - |a| - 1] && s[j] == b[j - |a| - 1];
        }
      }
    }
  }

  // ---------------------------------------------------------------------------------------
  // The C as written

  /**
   * __bst_tree_remove as written. When the predecessor is the matched node's immediate left
   * child, `parent` is still the matched node, so `parent->right = tmp->left` overwrites its
   * right subtree and its left slot keeps pointing at the freed predecessor. None stands for
   * that outcome.
   */
  function RemoveAsWritten(t: Tree, k: int): (r: Option<Tree>)
    ensures r.Some? ==> Keys(r.value) <= Keys(t)
    decreases t
  {
    if t.Nil? then Some(Nil)
    else if k < t.key then
      match RemoveAsWritten(t.left, k) case None => None case Some(l) => Some(t.(left := l))
    else if k > t.key then
      match RemoveAsWritten(t.right, k) case None => None case Some(r) => Some(t.(right := r))
    else if t.left.Nil? && t.right.Nil? then Some(Nil)
    else if t.left.Nil? then Some(t.right)
    else if t.right.Nil? then Some(t.left)
    else if t.left.right.Nil? then None
    else
      var (l, p) := SpliceMax(t.left);
      Some(Node(l, p, t.right))
  }

  /** Away from that case the C computes Removed. */
  lemma {:induction false} RemoveAsWrittenAgrees(t: Tree, k: int)
    requires RemoveAsWritten(t, k).Some?
    ensures RemoveAsWritten(t, k) == Some(Removed(t, k))
    decreases t
  {
    if t.Node? && k < t.key {
      RemoveAsWrittenAgrees(t.left, k);
    } else if t.Node? && k > t.key {
      RemoveAsWrittenAgrees(t.right, k);
    }
  }

  /** Removing 2 from 2(1, 3): the predecessor 1 is the immediate left child, and the record 3
    * is lost; the intended removal gives 1(-, 3). */
  lemma RemoveRootAsWritten()
    ensures var t := Node(Node(Nil, 1, Nil), 2, Node(Nil, 3, Nil));
      Ordered(t) && RemoveAsWritten(t, 2) == None && Removed(t, 2) == Node(Nil, 1, Node(Nil, 3, Nil))
  {
  }

  // ---------------------------------------------------------------------------------------
  // The tree header (bst_tree_t)

  class BstTree {
    var root: Tree

    /** bst_tree_create: an empty tree. */
    constructor ()
      ensures root == Nil
    {
      root := Nil;
    }

    /**
     * bst_tree_insert: walks down from the root, left past greater records and right past
     * smaller ones, and links the new leaf into the absent child reached (the root slot when
     * the tree is empty); an equal record ends the walk with the tree unchanged.
     */
    method Insert(k: int)
      modifies this
      ensures root == Inserted(old(root), k)
      ensures Ordered(old(root)) ==> Ordered(root) && Keys(root) == old(Keys(root)) + {k}
      ensures Ordered(old(root)) && k in old(Keys(root)) ==> root == old(root)
    {
      if Ordered(root) {
        InsertedOrdered(root, k);
        InsertedPresent(root, k);
      }
      var path: seq<Step> := [];
      var cur := root;
      while cur.Node?
        invariant root == Plug(path, cur)
        invariant Inserted(root, k) == Plug(path, Inserted(cur, k))
        decreases cur
      {
        if cur.key > k {
          path := path + [WentLeft(cur.key, cur.right)];
          cur := cur.left;
        } else if cur.key < k {
          path := path + [WentRight(cur.left, cur.key)];
          cur := cur.right;
        } else {
          return;
        }
      }
      root := Plug(path, Node(Nil, k, Nil));
    }

    /** bst_tree_remove: the root slot takes the subtree __bst_tree_remove hands back. */
    method Remove(k: int)
      modifies this
      ensures root == Removed(old(root), k)
      ensures Ordered(old(root)) ==> Ordered(root) && Keys(root) == old(Keys(root)) - {k}
      ensures Ordered(old(root)) && k !in old(Keys(root)) ==> root == old(root)
    {
      if Ordered(root) {
        RemoveSpec(root, k);
      }
      root := Removed(root, k);
    }
  }
}
