/**
 * The height-balanced search tree of ABC_AVL/avl.c.
 *
 * A node is a value: every C routine that rewrites a parent's child slot (or the tree's root
 * slot) is modelled as a function that returns the subtree to be stored in that slot.
 * Records are integers under their natural order, which plays the caller's comparator.
 */
module Avl {

  import opened Options

  /** avl_node_t: left child, record, right child, cached height (a `nat`, as the C byte is). */
  datatype Tree = Nil | Node(left: Tree, key: int, right: Tree, height: nat)

  function Max(a: int, b: int): int { if a < b then b else a }

  /** The height the C reads for a child slot: -1 when the child is absent. */
  function H(t: Tree): int { if t.Nil? then -1 else t.height }

  /** The balance factor the C computes as `b - a`: right height minus left height. */
  function Bf(t: Tree): int
    requires t.Node?
  {
    H(t.right) - H(t.left)
  }

  /** The height recomputed from scratch, independently of the cached fields. */
  function Height(t: Tree): int
  {
    if t.Nil? then -1 else 1 + Max(Height(t.left), Height(t.right))
  }

  function Keys(t: Tree): set<int>
  {
    if t.Nil? then {} else Keys(t.left) + {t.key} + Keys(t.right)
  }

  /** In-order sequence: left subtree, the node's record, right subtree. */
  function Inorder(t: Tree): seq<int>
  {
    if t.Nil? then [] else Inorder(t.left) + [t.key] + Inorder(t.right)
  }

  /** Number of nodes reachable from `t`. */
  function Count(t: Tree): nat
  {
    if t.Nil? then 0 else Count(t.left) + 1 + Count(t.right)
  }

  /** Search-tree order: left keys below the node's key, right keys above it, everywhere. */
  ghost predicate Ordered(t: Tree)
  {
    t.Nil? ||
    (Ordered(t.left) && Ordered(t.right) &&
     (forall x :: x in Keys(t.left) ==> x < t.key) &&
     (forall x :: x in Keys(t.right) ==> t.key < x))
  }

  /**
   * Every cached height is 1 + the larger child height (with -1 for an absent child), and the
   * two child heights differ by at most one.
   */
  ghost predicate Shape(t: Tree)
  {
    t.Nil? ||
    (Shape(t.left) && Shape(t.right) &&
     t.height == 1 + Max(H(t.left), H(t.right)) &&
     -1 <= Bf(t) <= 1)
  }

  ghost predicate IsAvl(t: Tree)
  {
    Ordered(t) && Shape(t)
  }

  /** Balance stated over the recomputed heights, as the design states it. */
  ghost predicate HeightBalanced(t: Tree)
  {
    t.Nil? ||
    (HeightBalanced(t.left) && HeightBalanced(t.right) &&
     -1 <= Height(t.right) - Height(t.left) <= 1)
  }

  ghost predicate Increasing(s: seq<int>)
  {
    forall i, j :: 0 <= i < j < |s| ==> s[i] < s[j]
  }

  /** A node whose children are sound and whose own height is recomputed, but which may be off
    * balance by two: what a recursive insert or remove hands back to its caller. */
  ghost predicate Pending(t: Tree)
  {
    t.Node? && Shape(t.left) && Shape(t.right) &&
    t.height == 1 + Max(H(t.left), H(t.right)) &&
    -2 <= Bf(t) <= 2
  }

  /** The subtree after one insertion below `n`, before its parent rebalances it. */
  ghost predicate Grown(r: Tree, n: Tree)
  {
    Pending(r) &&
    (H(r) == H(n) || H(r) == H(n) + 1) &&
    (Bf(r) == -2 || Bf(r) == 2 ==> H(r) == H(n) + 1) &&
    (Bf(r) == -2 ==> Bf(r.left) != 0) &&
    (Bf(r) == 2 ==> Bf(r.right) != 0) &&
    (H(r) == H(n) + 1 ==> Bf(r) != 0)
  }

  /** The subtree after one removal below `n`, before its parent rebalances it. */
  ghost predicate Shrunk(r: Tree, n: Tree)
  {
    Pending(r) &&
    (H(r) == H(n) || H(r) == H(n) - 1) &&
    (Bf(r) == -2 || Bf(r) == 2 ==> H(r) == H(n))
  }

  // ---------------------------------------------------------------------------------------
  // Nodes and heights

  /** __avl_node_create: a leaf of height 0 holding a copy of the record. */
  function NewNode(k: int): (r: Tree)
    ensures r.Node? && r.left.Nil? && r.right.Nil?
    ensures Keys(r) == {k} && Inorder(r) == [k] && IsAvl(r) && Height(r) == 0
  {
    Node(Nil, k, Nil, 0)
  }

  /** The recomputation `height = max(a, b) + 1` over the children's cached heights. */
  function Fix(t: Tree): (r: Tree)
    requires t.Node?
    ensures r.Node? && r.left == t.left && r.key == t.key && r.right == t.right
  {
    t.(height := 1 + Max(H(t.left), H(t.right)))
  }

  // ---------------------------------------------------------------------------------------
  // Rotations (avl.c:99-181). The C passes the parent and the slot (0 = its left, 1 = its right,
  // 2 = the tree's root); here the function gets the subtree held in that slot, and the caller
  // stores the result back in the same slot.

  /** turn_right: the left child `y` of `x` becomes the subtree's root, `y`'s right subtree becomes
    * `x`'s left one; `x`'s height is recomputed before `y`'s. */
  function TurnRight(x: Tree): (r: Tree)
    requires x.Node? && x.left.Node?
    ensures r.Node? && r.key == x.left.key && r.right.Node? && r.right.key == x.key
    ensures H(r.right) == 1 + Max(H(x.left.right), H(x.right))
    ensures H(r) == 1 + Max(H(x.left.left), H(r.right))
    ensures Inorder(r) == Inorder(x) && Keys(r) == Keys(x)
  {
    var y := x.left;
    var x' := Fix(Node(y.right, x.key, x.right, x.height));
    Fix(Node(y.left, y.key, x', y.height))
  }

  /** turn_left: the mirror image of TurnRight. */
  function TurnLeft(x: Tree): (r: Tree)
    requires x.Node? && x.right.Node?
    ensures r.Node? && r.key == x.right.key && r.left.Node? && r.left.key == x.key
    ensures H(r.left) == 1 + Max(H(x.left), H(x.right.left))
    ensures H(r) == 1 + Max(H(r.left), H(x.right.right))
    ensures Inorder(r) == Inorder(x) && Keys(r) == Keys(x)
  {
    var y := x.right;
    var x' := Fix(Node(x.left, x.key, y.left, x.height));
    Fix(Node(x', y.key, y.right, y.height))
  }

  lemma TurnRightOrdered(x: Tree)
    requires x.Node? && x.left.Node? && Ordered(x)
    ensures Ordered(TurnRight(x))
  {
    var y := x.left;
    assert forall v :: v in Keys(y.right) ==> v in Keys(y);
    assert Ordered(Node(y.right, x.key, x.right, 0));
  }

  lemma TurnLeftOrdered(x: Tree)
    requires x.Node? && x.right.Node? && Ordered(x)
    ensures Ordered(TurnLeft(x))
  {
    var y := x.right;
    assert forall v :: v in Keys(y.left) ==> v in Keys(y);
    assert Ordered(Node(x.left, x.key, y.left, 0));
  }

  /**
   * The rebalancing the C applies to the subtree in a slot (avl.c:226-253, repeated at 255-282,
   * 304-326, 479-537 and 601-623): on a -2 imbalance it rotates right, first rotating the left
   * child left when that child leans right; the +2 case is the mirror image. A heavy child with
   * balance 0 (possible only after a removal) gets a single rotation; see RebalanceAsWritten
   * for the C, which does nothing then.
   */
  function Rebalance(t: Tree): (r: Tree)
    ensures t.Node? ==> r.Node?
    ensures Inorder(r) == Inorder(t) && Keys(r) == Keys(t)
  {
    if t.Nil? then t
    else if Bf(t) == -2 then
      if Bf(t.left) == 1 then TurnRight(t.(left := TurnLeft(t.left))) else TurnRight(t)
    else if Bf(t) == 2 then
      if Bf(t.right) == -1 then TurnLeft(t.(right := TurnRight(t.right))) else TurnLeft(t)
    else t
  }

  lemma RebalanceOrdered(t: Tree)
    requires Ordered(t)
    ensures Ordered(Rebalance(t))
  {
    if t.Node? && Bf(t) == -2 {
      if Bf(t.left) == 1 {
        TurnLeftOrdered(t.left);
        TurnRightOrdered(t.(left := TurnLeft(t.left)));
      } else {
        TurnRightOrdered(t);
      }
    } else if t.Node? && Bf(t) == 2 {
      if Bf(t.right) == -1 {
        TurnRightOrdered(t.right);
        TurnLeftOrdered(t.(right := TurnRight(t.right)));
      } else {
        TurnLeftOrdered(t);
      }
    }
  }

  /** The -2 case: a single rotation when the left child leans left or not at all, a double
    * rotation when it leans right; either way the result is balanced. */
  lemma LeftHeavyShape(t: Tree)
    requires Pending(t) && Bf(t) == -2
    ensures Shape(Rebalance(t))
    ensures H(Rebalance(t)) == (if Bf(t.left) == 0 then H(t) else H(t) - 1)
  {
    var y := t.left;
    if Bf(y) == 1 {
      var z := y.right;
      assert Shape(z) && Shape(z.left) && Shape(z.right);
      var y' := TurnLeft(y);
      assert y'.left == Fix(Node(y.left, y.key, z.left, y.height));
      assert y' == Fix(Node(y'.left, z.key, z.right, z.height));
      assert Shape(y'.left);
      var r := TurnRight(t.(left := y'));
      assert r.right == Fix(Node(z.right, t.key, t.right, t.height));
      assert r.left == y'.left;
      assert Shape(r.right);
    } else {
      var r := TurnRight(t);
      assert Shape(r.right);
    }
  }

  lemma RightHeavyShape(t: Tree)
    requires Pending(t) && Bf(t) == 2
    ensures Shape(Rebalance(t))
    ensures H(Rebalance(t)) == (if Bf(t.right) == 0 then H(t) else H(t) - 1)
  {
    var y := t.right;
    if Bf(y) == -1 {
      var z := y.left;
      assert Shape(z) && Shape(z.left) && Shape(z.right);
      var y' := TurnRight(y);
      assert y'.right == Fix(Node(z.right, y.key, y.right, y.height));
      assert y' == Fix(Node(z.left, z.key, y'.right, z.height));
      assert Shape(y'.right);
      var r := TurnLeft(t.(right := y'));
      assert r.left == Fix(Node(t.left, t.key, z.left, t.height));
      assert r.right == y'.right;
      assert Shape(r.left);
    } else {
      var r := TurnLeft(t);
      assert Shape(r.left);
    }
  }

  /** Rebalancing a pending subtree yields a sound one, leaves a balanced one alone, and lowers
    * the height by at most one. */
  lemma RebalanceShape(t: Tree)
    requires Pending(t)
    ensures Shape(Rebalance(t))
    ensures -1 <= Bf(t) <= 1 ==> Rebalance(t) == t
    ensures H(Rebalance(t)) == H(t) || H(Rebalance(t)) == H(t) - 1
    ensures Bf(t) == -2 && Bf(t.left) != 0 ==> H(Rebalance(t)) == H(t) - 1
    ensures Bf(t) == 2 && Bf(t.right) != 0 ==> H(Rebalance(t)) == H(t) - 1
  {
    if Bf(t) == -2 {
      LeftHeavyShape(t);
    } else if Bf(t) == 2 {
      RightHeavyShape(t);
    }
  }

  // ---------------------------------------------------------------------------------------
  // Insertion (avl.c:189-332)

  /**
   * __avl_tree_insert: descend from the non-empty node `n` by the sign of the comparison,
   * attach a new leaf at the absent child reached, rebalance the child on the way back and
   * recompute `n`'s height. The flag is the C's `succes`: an equal key was found.
   */
  function InsertAt(n: Tree, k: int): (res: (Tree, bool))
    requires n.Node?
    ensures res.0.Node? && Keys(res.0) == Keys(n) + {k}
    decreases n
  {
    if k < n.key then
      if n.left.Node? then
        var (l, dup) := InsertAt(n.left, k);
        (Fix(n.(left := Rebalance(l))), dup)
      else
        (n.(left := NewNode(k), height := if n.right.Node? then n.right.height + 1 else 1), false)
    else if k > n.key then
      if n.right.Node? then
        var (r, dup) := InsertAt(n.right, k);
        (Fix(n.(right := Rebalance(r))), dup)
      else
        (n.(right := NewNode(k), height := if n.left.Node? then n.left.height + 1 else 1), false)
    else
      (n, true)
  }

  /** avl_tree_insert on the root slot: an empty tree gets a new root; otherwise the recursive
    * insert runs and the root itself is rebalanced and its height recomputed. */
  function InsertRoot(root: Tree, k: int): (res: (Tree, bool))
    ensures res.0.Node? && Keys(res.0) == Keys(root) + {k}
    ensures root.Nil? ==> !res.1
  {
    if root.Nil? then (NewNode(k), false)
    else
      var (r, dup) := InsertAt(root, k);
      (Fix(Rebalance(r)), dup)
  }

  /** Storing in `n`'s left slot a sound subtree that grew by at most one (and leans when it
    * grew), then recomputing `n`'s height, gives what Grown describes. */
  lemma GrowLeft(n: Tree, l: Tree)
    requires n.Node? && IsAvl(n) && n.left.Node?
    requires Shape(l) && Ordered(l) && (forall x :: x in Keys(l) ==> x < n.key)
    requires H(l) == H(n.left) || (H(l) == H(n.left) + 1 && l.Node? && Bf(l) != 0)
    ensures Grown(Fix(n.(left := l)), n) && Ordered(Fix(n.(left := l)))
  {
  }

  lemma GrowRight(n: Tree, r: Tree)
    requires n.Node? && IsAvl(n) && n.right.Node?
    requires Shape(r) && Ordered(r) && (forall x :: x in Keys(r) ==> n.key < x)
    requires H(r) == H(n.right) || (H(r) == H(n.right) + 1 && r.Node? && Bf(r) != 0)
    ensures Grown(Fix(n.(right := r)), n) && Ordered(Fix(n.(right := r)))
  {
  }

  /**
   * One recursive insert below a sound node: the key set gains `k`, the flag says whether `k`
   * was already there (and then nothing changed), and the result is what its caller's
   * rebalancing can repair: at most one taller, off balance by at most two, and when off by two
   * the heavy child leans, so a single or double rotation applies.
   */
  lemma {:induction false} InsertAtSpec(n: Tree, k: int)
    requires n.Node? && IsAvl(n)
    ensures var (r, dup) := InsertAt(n, k);
      Ordered(r) && Grown(r, n) && (dup <==> k in Keys(n)) && (dup ==> r == n)
    decreases n
  {
    if k < n.key {
      if n.left.Node? {
        InsertAtSpec(n.left, k);
        InsertLeftStep(n, k, InsertAt(n.left, k).0, InsertAt(n.left, k).1);
      } else {
        AttachLeft(n, k);
      }
    } else if k > n.key {
      if n.right.Node? {
        InsertAtSpec(n.right, k);
        InsertRightStep(n, k, InsertAt(n.right, k).0, InsertAt(n.right, k).1);
      } else {
        AttachRight(n, k);
      }
    }
  }

  /** avl.c:192-193, 225-253, 284-287: after the recursive insert into the left child, the child
    * is rebalanced in its slot and the node's height recomputed. */
  lemma InsertLeftStep(n: Tree, k: int, l: Tree, dup: bool)
    requires n.Node? && IsAvl(n) && n.left.Node? && k < n.key
    requires Keys(l) == Keys(n.left) + {k} && Ordered(l) && Grown(l, n.left)
    requires (dup <==> k in Keys(n.left)) && (dup ==> l == n.left)
    ensures var r := Fix(n.(left := Rebalance(l)));
      Ordered(r) && Grown(r, n) && (dup <==> k in Keys(n)) && (dup ==> r == n)
  {
    RebalanceShape(l);
    RebalanceOrdered(l);
    assert H(Rebalance(l)) == H(n.left) || Rebalance(l) == l;
    GrowLeft(n, Rebalance(l));
  }

  lemma InsertRightStep(n: Tree, k: int, r: Tree, dup: bool)
    requires n.Node? && IsAvl(n) && n.right.Node? && k > n.key
    requires Keys(r) == Keys(n.right) + {k} && Ordered(r) && Grown(r, n.right)
    requires (dup <==> k in Keys(n.right)) && (dup ==> r == n.right)
    ensures var t := Fix(n.(right := Rebalance(r)));
      Ordered(t) && Grown(t, n) && (dup <==> k in Keys(n)) && (dup ==> t == n)
  {
    RebalanceShape(r);
    RebalanceOrdered(r);
    assert H(Rebalance(r)) == H(n.right) || Rebalance(r) == r;
    GrowRight(n, Rebalance(r));
  }

  /** avl.c:195-202: the new leaf goes in the empty left slot, and the parent's height is set
    * directly: one more than the right child's, or 1. */
  lemma AttachLeft(n: Tree, k: int)
    requires n.Node? && IsAvl(n) && n.left.Nil? && k < n.key
    ensures var r := n.(left := NewNode(k), height := if n.right.Node? then n.right.height + 1 else 1);
      r == Fix(r) && Ordered(r) && Grown(r, n) && k !in Keys(n)
  {
  }

  lemma AttachRight(n: Tree, k: int)
    requires n.Node? && IsAvl(n) && n.right.Nil? && k > n.key
    ensures var r := n.(right := NewNode(k), height := if n.left.Node? then n.left.height + 1 else 1);
      r == Fix(r) && Ordered(r) && Grown(r, n) && k !in Keys(n)
  {
  }

  /** avl_tree_insert keeps the tree a sound AVL tree holding one more key, or the same tree
    * when the key was present. */
  lemma InsertRootSpec(root: Tree, k: int)
    requires IsAvl(root)
    ensures var (r, dup) := InsertRoot(root, k);
      IsAvl(r) && Keys(r) == Keys(root) + {k} && (dup <==> k in Keys(root)) && (dup ==> r == root)
  {
    if root.Node? {
      var (r, dup) := InsertAt(root, k);
      InsertAtSpec(root, k);
      RebalanceShape(r);
      RebalanceOrdered(r);
    }
  }

  // ---------------------------------------------------------------------------------------
  // Removal (avl.c:343-628)

  /**
   * The predecessor unlink of avl.c:383-398 (and its copies at 444-458 and 570-584): the rightmost
   * node of the non-empty subtree `t` is cut out and its left subtree takes its place; its record
   * is returned. Heights on the way down are left as they were.
   */
  function SpliceMax(t: Tree): (res: (Tree, int))
    requires t.Node?
    ensures Inorder(res.0) + [res.1] == Inorder(t) && Keys(res.0) + {res.1} == Keys(t)
    ensures res.0.Nil? <==> t.left.Nil? && t.right.Nil?
    decreases t
  {
    if t.right.Nil? then (t.left, t.key)
    else
      var (r, m) := SpliceMax(t.right);
      (t.(right := r), m)
  }

  /** Rebuilds a tree from the ancestors `path` (top first), each of which had the next one as
    * its right child, with `sub` in the right slot of the last of them. */
  function PlugRight(path: seq<Tree>, sub: Tree): Tree
    requires forall i :: 0 <= i < |path| ==> path[i].Node?
    decreases |path|
  {
    if |path| == 0 then sub
    else PlugRight(path[..|path| - 1], path[|path| - 1].(right := sub))
  }

  /**
   * The predecessor unlink as the C writes it, with its `while (it->right->right)` walk down the
   * right spine; it computes what SpliceMax describes.
   */
  method SplicePredecessor(t: Tree) returns (l: Tree, p: int)
    requires t.Node?
    ensures (l, p) == SpliceMax(t)
  {
    if t.right.Nil? {
      return t.left, t.key;
    }
    var path: seq<Tree> := [];
    var it := t;
    while it.right.right.Node?
      invariant it.Node? && it.right.Node?
      invariant forall i :: 0 <= i < |path| ==> path[i].Node?
      invariant SpliceMax(t) == (PlugRight(path, SpliceMax(it).0), SpliceMax(it).1)
      decreases it
    {
      assert PlugRight(path + [it], SpliceMax(it.right).0) == PlugRight(path, it.(right := SpliceMax(it.right).0));
      path := path + [it];
      it := it.right;
    }
    var m := it.right;
    l := PlugRight(path, it.(right := m.left));
    p := m.key;
  }

  /**
   * The pass the C starts with `track = 1` after a predecessor unlink (avl.c:400 and 586), as it
   * is evidently meant to work: down the right spine of the subtree the predecessor left, then on
   * the way back each right child is rebalanced and each height recomputed. See
   * TrackAsWritten for the pass as written.
   */
  function Track(t: Tree): (r: Tree)
    requires t.Node?
    ensures r.Node? && Inorder(r) == Inorder(t) && Keys(r) == Keys(t)
    decreases t
  {
    if t.right.Node? then Fix(t.(right := Rebalance(Track(t.right)))) else Fix(t)
  }

  /** What takes the place of the left subtree after the predecessor unlink and repair. Beyond
    * the C's pass, the top of the spine is rebalanced as well: the pass rebalances only the right
    * children on the spine, and the caller only the unlinked node (see UnlinkPassOnly). */
  function Repaired(l: Tree): (r: Tree)
    ensures Keys(r) == Keys(l) && Inorder(r) == Inorder(l)
  {
    if l.Node? then Rebalance(Track(l)) else l
  }

  /**
   * Removing the record of the node `c` from the subtree rooted at it (avl.c:355-401 for a left
   * child, 412-457 for a right one, 551-587 for the root): a leaf goes away, a node with one child
   * is replaced by it, and a node with two children takes its predecessor's record, after which
   * the spine the predecessor left is repaired (Repaired) and `c`'s height recomputed from the
   * repaired child. The C computes that height before the pass (avl.c:400-403) and does not
   * rebalance the top of the spine; UnlinkPassOnly is that version and SpinePassUnsound shows a
   * sound tree it leaves unsound.
   */
  function Unlink(c: Tree): (u: Tree)
    requires c.Node?
    ensures Keys(u) + {c.key} == Keys(c)
  {
    if c.left.Nil? && c.right.Nil? then Nil
    else if c.right.Nil? then c.left
    else if c.left.Nil? then c.right
    else
      var (l, p) := SpliceMax(c.left);
      Fix(Node(Repaired(l), p, c.right, c.height))
  }

  /**
   * __avl_tree_remove with `track = 0`, on a node `n` whose own record is not `k`: when the
   * child on `k`'s side is absent nothing changes and the flag is false (the C's `succes = 1`);
   * when that child holds `k` it is unlinked, otherwise the removal recurses into it; then the
   * child is rebalanced in its slot (not after a leaf or one-child unlink, where the C returns
   * early) and `n`'s height recomputed. The flag says a record was removed.
   */
  function RemoveBelow(n: Tree, k: int): (res: (Tree, bool))
    requires n.Node? && k != n.key
    ensures res.0.Node? && res.0.key == n.key
    decreases n
  {
    if k < n.key then
      if n.left.Nil? then (n, false)
      else if k != n.left.key then
        var (l, found) := RemoveBelow(n.left, k);
        (Fix(n.(left := Rebalance(l))), found)
      else
        var c := n.left;
        var u := Unlink(c);
        (Fix(n.(left := if c.left.Node? && c.right.Node? then Rebalance(u) else u)), true)
    else
      if n.right.Nil? then (n, false)
      else if k != n.right.key then
        var (r, found) := RemoveBelow(n.right, k);
        (Fix(n.(right := Rebalance(r))), found)
      else
        var c := n.right;
        var u := Unlink(c);
        (Fix(n.(right := if c.left.Node? && c.right.Node? then Rebalance(u) else u)), true)
  }

  /**
   * avl_tree_remove on the root slot: nothing to do in an empty tree; a root holding `k` is
   * unlinked; otherwise the recursive removal runs. Unless the tree became empty, the root is
   * then rebalanced and its height recomputed.
   */
  function RemoveRoot(root: Tree, k: int): (res: (Tree, bool))
    ensures root.Nil? ==> res == (Nil, false)
    ensures root.Node? && k == root.key ==> res.1 && Keys(res.0) + {k} == Keys(root)
    ensures root.Node? && k != root.key ==> res.0.Node?
  {
    if root.Nil? then (Nil, false)
    else if k == root.key then
      var u := Unlink(root);
      if u.Nil? then (Nil, true) else (Fix(Rebalance(u)), true)
    else
      var (r, found) := RemoveBelow(root, k);
      (Fix(Rebalance(r)), found)
  }

  /** A sound subtree stored in `n`'s left slot, at most one lower than the child it replaces,
    * leaves `n` pending at most one lower, and when off by two, as high as before. */
  lemma ShrinkLeft(n: Tree, v: Tree)
    requires n.Node? && Shape(n) && Shape(v)
    requires H(v) == H(n.left) || H(v) == H(n.left) - 1
    ensures Shrunk(Fix(n.(left := v)), n)
  {
  }

  lemma ShrinkRight(n: Tree, v: Tree)
    requires n.Node? && Shape(n) && Shape(v)
    requires H(v) == H(n.right) || H(v) == H(n.right) - 1
    ensures Shrunk(Fix(n.(right := v)), n)
  {
  }

  /** Rebalancing what a removal hands back gives a sound subtree at most one lower than the
    * original. */
  lemma SettleShrunk(u: Tree, c: Tree)
    requires Shrunk(u, c)
    ensures Shape(Rebalance(u)) && (H(Rebalance(u)) == H(c) || H(Rebalance(u)) == H(c) - 1)
    ensures -1 <= Bf(u) <= 1 ==> Rebalance(u) == u
  {
    RebalanceShape(u);
  }

  /** The repair pass leaves a sound subtree as it is. */
  lemma {:induction false} TrackSound(t: Tree)
    requires t.Node? && Shape(t)
    ensures Track(t) == t
    decreases t
  {
    if t.right.Node? {
      TrackSound(t.right);
    }
  }

  lemma {:induction false} TrackOrdered(t: Tree)
    requires t.Node? && Ordered(t)
    ensures Ordered(Track(t))
    decreases t
  {
    if t.right.Node? {
      TrackOrdered(t.right);
      RebalanceOrdered(Track(t.right));
    }
  }

  /** In a search tree the predecessor unlink takes out the largest record and leaves a search
    * tree of the others. */
  lemma {:induction false} SpliceMaxOrdered(t: Tree)
    requires t.Node? && Ordered(t)
    ensures var (l, p) := SpliceMax(t);
      Ordered(l) && Keys(l) == Keys(t) - {p} && (forall x :: x in Keys(l) ==> x < p)
    decreases t
  {
    if t.right.Node? {
      SpliceMaxOrdered(t.right);
    }
  }

  /** After the predecessor unlink below a sound subtree, the repair pass leaves what a removal
    * hands to its caller; only a leaf can be emptied. */
  lemma {:induction false} SpliceMaxShape(t: Tree)
    requires t.Node? && Shape(t)
    ensures var (l, p) := SpliceMax(t);
      (l.Nil? ==> H(t) == 0) && (l.Node? ==> Shrunk(Track(l), t))
    decreases t
  {
    var (l, p) := SpliceMax(t);
    if t.right.Nil? {
      if l.Node? {
        TrackSound(l);
      }
    } else {
      var (r, m) := SpliceMax(t.right);
      SpliceMaxShape(t.right);
      if r.Node? {
        SettleShrunk(Track(r), t.right);
        ShrinkRight(t, Rebalance(Track(r)));
        assert Track(l) == Fix(t.(right := Rebalance(Track(r))));
      } else {
        ShrinkRight(t, Nil);
        assert Track(l) == Fix(t.(right := Nil));
      }
    }
  }

  /** Unlinking the record of a search-tree node removes exactly that record and keeps the
    * order. */
  lemma UnlinkOrdered(c: Tree)
    requires c.Node? && Ordered(c)
    ensures Ordered(Unlink(c)) && Keys(Unlink(c)) == Keys(c) - {c.key}
  {
    if c.left.Node? && c.right.Node? {
      UnlinkBothOrdered(c);
    } else {
      assert c.key !in Keys(c.left) && c.key !in Keys(c.right);
    }
  }

  /** UnlinkOrdered for a node with two children, which takes its predecessor's record. */
  lemma UnlinkBothOrdered(c: Tree)
    requires c.Node? && c.left.Node? && c.right.Node? && Ordered(c)
    ensures Ordered(Unlink(c)) && Keys(Unlink(c)) == Keys(c) - {c.key}
  {
    var (l, p) := SpliceMax(c.left);
    var l' := Repaired(l);
    RepairedOrdered(c.left);
    assert p < c.key;
    assert Unlink(c) == Fix(Node(l', p, c.right, c.height));
  }

  /** The predecessor unlink and repair leave a search tree of every record but the largest,
    * which was in the subtree. */
  lemma RepairedOrdered(t: Tree)
    requires t.Node? && Ordered(t)
    ensures var (l, p) := SpliceMax(t);
      Ordered(Repaired(l)) && Keys(Repaired(l)) == Keys(t) - {p} && p in Keys(t) &&
      (forall x :: x in Keys(Repaired(l)) ==> x < p)
  {
    var (l, p) := SpliceMax(t);
    SpliceMaxOrdered(t);
    if l.Node? {
      TrackOrdered(l);
      RebalanceOrdered(Track(l));
    }
  }

  /** Unlinking the record of a sound node leaves what a removal hands to its caller, already
    * sound when the node had at most one child (which is why the C need not rebalance then). */
  lemma UnlinkShape(c: Tree)
    requires c.Node? && Shape(c)
    ensures var u := Unlink(c);
      (u.Nil? ==> H(c) == 0) && (u.Node? ==> Shrunk(u, c)) &&
      (c.left.Nil? || c.right.Nil? ==> Shape(u))
  {
    if c.left.Node? && c.right.Node? {
      var (l, p) := SpliceMax(c.left);
      SpliceMaxShape(c.left);
      var l' := Repaired(l);
      if l.Node? {
        SettleShrunk(Track(l), c.left);
      }
      ShrinkLeft(c.(key := p), l');
      assert Unlink(c) == Fix(c.(key := p).(left := l'));
    }
  }

  /** What the C stores in the slot of the unlinked node `c`: sound, at most one lower, holding
    * every record of `c` but its own, in order. */
  lemma SettleUnlink(c: Tree)
    requires c.Node? && IsAvl(c)
    ensures var u := Unlink(c);
      var v := if c.left.Node? && c.right.Node? then Rebalance(u) else u;
      Shape(v) && Ordered(v) && Keys(v) == Keys(c) - {c.key} && (H(v) == H(c) || H(v) == H(c) - 1)
  {
    var u := Unlink(c);
    UnlinkOrdered(c);
    UnlinkShape(c);
    if c.left.Node? && c.right.Node? {
      SettleShrunk(u, c);
      RebalanceOrdered(u);
    }
  }

  /**
   * One recursive removal below a sound node whose own record is not `k`: the search order
   * holds, exactly `k` is gone, the flag says whether it was there (and when not, nothing
   * changed), and the result is what its caller's rebalancing can repair.
   */
  lemma {:induction false} RemoveBelowSpec(n: Tree, k: int)
    requires n.Node? && IsAvl(n) && k != n.key
    ensures var (r, found) := RemoveBelow(n, k);
      Ordered(r) && Keys(r) == Keys(n) - {k} && (found <==> k in Keys(n)) && (!found ==> r == n) &&
      Shrunk(r, n)
    decreases n
  {
    if k < n.key && n.left.Node? {
      if k != n.left.key {
        RemoveBelowSpec(n.left, k);
        RemoveLeftStep(n, k, RemoveBelow(n.left, k).0, RemoveBelow(n.left, k).1);
      } else {
        SettleUnlink(n.left);
        ReplaceLeft(n, k, RemoveBelow(n, k).0.left);
      }
    } else if k > n.key && n.right.Node? {
      if k != n.right.key {
        RemoveBelowSpec(n.right, k);
        RemoveRightStep(n, k, RemoveBelow(n.right, k).0, RemoveBelow(n.right, k).1);
      } else {
        SettleUnlink(n.right);
        ReplaceRight(n, k, RemoveBelow(n, k).0.right);
      }
    }
  }

  /** A sound search subtree holding the left child's records but `k`, at most one lower, stored
    * in `n`'s left slot before `n`'s height is recomputed. */
  lemma ReplaceLeft(n: Tree, k: int, v: Tree)
    requires n.Node? && IsAvl(n) && n.left.Node? && k < n.key
    requires Shape(v) && Ordered(v) && Keys(v) == Keys(n.left) - {k}
    requires H(v) == H(n.left) || H(v) == H(n.left) - 1
    ensures var r := Fix(n.(left := v));
      Ordered(r) && Keys(r) == Keys(n) - {k} && Shrunk(r, n)
  {
    ShrinkLeft(n, v);
    assert k !in Keys(n.right);
  }

  lemma ReplaceRight(n: Tree, k: int, v: Tree)
    requires n.Node? && IsAvl(n) && n.right.Node? && k > n.key
    requires Shape(v) && Ordered(v) && Keys(v) == Keys(n.right) - {k}
    requires H(v) == H(n.right) || H(v) == H(n.right) - 1
    ensures var r := Fix(n.(right := v));
      Ordered(r) && Keys(r) == Keys(n) - {k} && Shrunk(r, n)
  {
    ShrinkRight(n, v);
    assert k !in Keys(n.left);
  }

  /** avl.c:352-353, 479-537, 624-627: after the recursive removal in the left child, the child is
    * rebalanced in its slot and the node's height recomputed. */
  lemma RemoveLeftStep(n: Tree, k: int, l: Tree, found: bool)
    requires n.Node? && IsAvl(n) && n.left.Node? && k < n.key
    requires Ordered(l) && Keys(l) == Keys(n.left) - {k} && Shrunk(l, n.left)
    requires (found <==> k in Keys(n.left)) && (!found ==> l == n.left)
    ensures var r := Fix(n.(left := Rebalance(l)));
      Ordered(r) && Keys(r) == Keys(n) - {k} && (found <==> k in Keys(n)) && (!found ==> r == n) &&
      Shrunk(r, n)
  {
    SettleShrunk(l, n.left);
    RebalanceOrdered(l);
    ReplaceLeft(n, k, Rebalance(l));
  }

  lemma RemoveRightStep(n: Tree, k: int, r: Tree, found: bool)
    requires n.Node? && IsAvl(n) && n.right.Node? && k > n.key
    requires Ordered(r) && Keys(r) == Keys(n.right) - {k} && Shrunk(r, n.right)
    requires (found <==> k in Keys(n.right)) && (!found ==> r == n.right)
    ensures var t := Fix(n.(right := Rebalance(r)));
      Ordered(t) && Keys(t) == Keys(n) - {k} && (found <==> k in Keys(n)) && (!found ==> t == n) &&
      Shrunk(t, n)
  {
    SettleShrunk(r, n.right);
    RebalanceOrdered(r);
    ReplaceRight(n, k, Rebalance(r));
  }

  /** avl_tree_remove keeps the tree a sound AVL tree holding every key but `k`; the flag says
    * whether `k` was there, and when it was not the tree is unchanged. */
  lemma RemoveRootSpec(root: Tree, k: int)
    requires IsAvl(root)
    ensures var (r, found) := RemoveRoot(root, k);
      IsAvl(r) && Keys(r) == Keys(root) - {k} && (found <==> k in Keys(root)) && (!found ==> r == root)
  {
    if root.Node? {
      if k == root.key {
        var u := Unlink(root);
        UnlinkOrdered(root);
        UnlinkShape(root);
        if u.Node? {
          RebalanceShape(u);
          RebalanceOrdered(u);
        }
      } else {
        var (r, found) := RemoveBelow(root, k);
        RemoveBelowSpec(root, k);
        RebalanceShape(r);
        RebalanceOrdered(r);
      }
    }
  }

  // ---------------------------------------------------------------------------------------
  // Lookup (avl.c:669-685)

  /** __avl_has_key: 1 when the search from the non-empty node `n` meets `k`, 0 when it runs
    * into an absent child. */
  function HasKeyAt(n: Tree, k: int): (r: int)
    requires n.Node?
    ensures r == 0 || r == 1
    ensures r == 1 ==> k in Keys(n)
    decreases n
  {
    if k == n.key then 1
    else if k < n.key then (if n.left.Nil? then 0 else HasKeyAt(n.left, k))
    else (if n.right.Nil? then 0 else HasKeyAt(n.right, k))
  }

  /** avl_has_key: 0 on an empty tree. */
  function HasKey(root: Tree, k: int): (r: int)
    ensures r == 0 || r == 1
    ensures r == 1 ==> k in Keys(root)
  {
    if root.Nil? then 0 else HasKeyAt(root, k)
  }

  /** In a search tree the lookup answers 1 exactly for the keys the tree holds. */
  lemma {:induction false} HasKeyAtComplete(n: Tree, k: int)
    requires n.Node? && Ordered(n)
    ensures HasKeyAt(n, k) == 1 <==> k in Keys(n)
    decreases n
  {
    if k < n.key && n.left.Node? {
      HasKeyAtComplete(n.left, k);
    } else if k > n.key && n.right.Node? {
      HasKeyAtComplete(n.right, k);
    }
  }

  lemma HasKeyComplete(root: Tree, k: int)
    requires Ordered(root)
    ensures HasKey(root, k) == 1 <==> k in Keys(root)
  {
    if root.Node? {
      HasKeyAtComplete(root, k);
    }
  }

  // ---------------------------------------------------------------------------------------
  // What the invariant means

  /** A sound tree's cached heights are its real heights, and it is height-balanced. */
  lemma {:induction false} ShapeHeight(t: Tree)
    requires Shape(t)
    ensures H(t) == Height(t) && HeightBalanced(t)
    decreases t
  {
    if t.Node? {
      ShapeHeight(t.left);
      ShapeHeight(t.right);
    }
  }

  /** The in-order traversal visits exactly the tree's keys. */
  lemma {:induction false} InorderKeys(t: Tree)
    ensures forall x :: x in Inorder(t) <==> x in Keys(t)
    decreases t
  {
    if t.Node? {
      InorderKeys(t.left);
      InorderKeys(t.right);
    }
  }

  /** A search tree's in-order traversal is strictly increasing. */
  lemma {:induction false} InorderIncreasing(t: Tree)
    requires Ordered(t)
    ensures Increasing(Inorder(t))
    decreases t
  {
    if t.Node? {
      InorderIncreasing(t.left);
      InorderIncreasing(t.right);
      InorderKeys(t.left);
      InorderKeys(t.right);
      var a, b := Inorder(t.left), Inorder(t.right);
      var s := Inorder(t);
      assert s == a + [t.key] + b;
      forall i, j | 0 <= i < j < |s|
        ensures s[i] < s[j]
      {
        if j < |a| {
          assert s[i] == a[i] && s[j] == a[j];
        } else if i < |a| {
          assert s[i] == a[i] && a[i] in Keys(t.left);
          if j > |a| {
            assert s[j] == b[j - |a| - 1] && b[j - |a| - 1] in Keys(t.right);
          }
        } else if i == |a| {
          assert s[j] == b[j - |a| - 1] && b[j - |a| - 1] in Keys(t.right);
        } else {
          assert s[i] == b[i - |a| - 1] && s[j] == b[j - |a| - 1];
        }
      }
    }
  }

  /** A search tree holds no key twice: its node count is the number of its keys, so the
    * tree's `size` counts nodes. */
  lemma {:induction false} CountKeys(t: Tree)
    requires Ordered(t)
    ensures Count(t) == |Keys(t)|
    decreases t
  {
    if t.Node? {
      CountKeys(t.left);
      CountKeys(t.right);
      assert Keys(t.left) !! Keys(t.right) by {
        forall x | x in Keys(t.left) ensures x !in Keys(t.right) { }
      }
      assert t.key !in Keys(t.left) + Keys(t.right);
      assert |Keys(t.left) + Keys(t.right)| == |Keys(t.left)| + |Keys(t.right)|;
      assert Keys(t) == (Keys(t.left) + Keys(t.right)) + {t.key};
    }
  }

  // ---------------------------------------------------------------------------------------
  // The C as written, where it departs from the model above

  /** The C's conversion of an `int` to `unsigned char`: modulo 256 (so -1 becomes 255). */
  function Byte(x: int): (b: nat)
    ensures b < 256 && (0 <= x < 256 ==> b == x) && (x == -1 ==> b == 255)
  {
    x % 256
  }

  /**
   * The height update `max(a, b) + 1` as written: `max` takes `unsigned char` arguments, so the
   * -1 of an absent child arrives as 255, and the 256 that follows is stored as 0 in the byte.
   */
  function FixAsWritten(t: Tree): (r: Tree)
    requires t.Node?
    ensures r.Node? && r.left == t.left && r.key == t.key && r.right == t.right && r.height < 256
  {
    t.(height := Byte(Max(Byte(H(t.left)), Byte(H(t.right))) + 1))
  }

  /** The byte update agrees with the intended one exactly when the node has no child or two
    * (below heights of 255): a node with a single child is given height 0. */
  lemma FixAsWrittenAgrees(t: Tree)
    requires t.Node? && H(t.left) < 255 && H(t.right) < 255
    ensures FixAsWritten(t) == Fix(t) <==> (t.left.Nil? <==> t.right.Nil?)
    ensures t.left.Nil? != t.right.Nil? ==> FixAsWritten(t).height == 0
  {
  }

  /** Inserting 2 after 1: the root, which now has one child, gets height 0 instead of 1. */
  lemma InsertTwoAsWritten()
    ensures var t := InsertAt(NewNode(1), 2).0;
      t == Node(Nil, 1, NewNode(2), 1) && FixAsWritten(RebalanceAsWritten(t)).height == 0 &&
      Height(t) == 1
  {
  }

  /** The rebalancing as written (avl.c:226-253 and its copies): the heavy child must lean one way
    * or the other, and when its balance is 0 nothing is rotated. */
  function RebalanceAsWritten(t: Tree): (r: Tree)
    ensures Inorder(r) == Inorder(t) && Keys(r) == Keys(t)
  {
    if t.Nil? then t
    else if Bf(t) == -2 then
      if Bf(t.left) == -1 then TurnRight(t)
      else if Bf(t.left) == 1 then TurnRight(t.(left := TurnLeft(t.left)))
      else t
    else if Bf(t) == 2 then
      if Bf(t.right) == -1 then TurnLeft(t.(right := TurnRight(t.right)))
      else if Bf(t.right) == 1 then TurnLeft(t)
      else t
    else t
  }

  /** The two rebalancings part only where the heavy child has balance 0. */
  lemma RebalanceAsWrittenAgrees(t: Tree)
    requires Pending(t)
    ensures RebalanceAsWritten(t) != Rebalance(t) ==>
      (Bf(t) == -2 && Bf(t.left) == 0) || (Bf(t) == 2 && Bf(t.right) == 0)
  {
  }

  /**
   * The `track = 1` pass as written (avl.c:469-472 and the rebalancing after it): it tests the
   * right child but recurses into the left one, reads the record of a NULL node when it gets
   * there (avl.c:343), and then rebalances the child on `k`'s side, reading through a NULL one
   * when it is absent (avl.c:483, 512). None stands for the NULL dereference.
   */
  function TrackAsWritten(m: Tree, k: int): (r: Option<Tree>)
    ensures r.Some? ==> r.value.Node? && Inorder(r.value) == Inorder(m) && Keys(r.value) == Keys(m)
    decreases m
  {
    if m.Nil? then None
    else
      var inner := if m.right.Node? then
          (match TrackAsWritten(m.left, k) case None => None case Some(l) => Some(m.(left := l)))
        else Some(m);
      match inner
      case None => None
      case Some(m') =>
        if k < m'.key then
          if m'.left.Nil? then None else Some(Fix(m'.(left := RebalanceAsWritten(m'.left))))
        else
          if m'.right.Nil? then None else Some(Fix(m'.(right := RebalanceAsWritten(m'.right))))
  }

  /** Started, as the C starts it, on a subtree whose records all lie below the removed one, the
    * pass as written always dereferences NULL. */
  lemma {:induction false} TrackAsWrittenFails(m: Tree, k: int)
    requires forall x :: x in Keys(m) ==> x < k
    ensures TrackAsWritten(m, k) == None
    decreases m
  {
    if m.Node? {
      assert m.key in Keys(m);
      if m.right.Node? {
        assert Keys(m.left) <= Keys(m);
        TrackAsWrittenFails(m.left, k);
      }
    }
  }

  /** __avl_tree_remove with `track = 0` as written; None stands for a NULL dereference. */
  function RemoveBelowAsWritten(n: Tree, k: int): (res: Option<(Tree, bool)>)
    requires n.Node? && k != n.key
    ensures res.Some? ==> res.value.0.Node? && res.value.0.key == n.key && Keys(res.value.0) <= Keys(n)
    decreases n
  {
    if k < n.key then
      if n.left.Nil? then Some((n, false))
      else if k != n.left.key then
        match RemoveBelowAsWritten(n.left, k)
        case None => None
        case Some((l, found)) => Some((Fix(n.(left := RebalanceAsWritten(l))), found))
      else
        match UnlinkAsWritten(n.left, k)
        case None => None
        case Some((u, two)) => Some((Fix(n.(left := if two then RebalanceAsWritten(u) else u)), true))
    else
      if n.right.Nil? then Some((n, false))
      else if k != n.right.key then
        match RemoveBelowAsWritten(n.right, k)
        case None => None
        case Some((r, found)) => Some((Fix(n.(right := RebalanceAsWritten(r))), found))
      else
        match UnlinkAsWritten(n.right, k)
        case None => None
        case Some((u, two)) => Some((Fix(n.(right := if two then RebalanceAsWritten(u) else u)), true))
  }

  /** The unlink of a non-root child `c` holding `k`, as written (avl.c:355-405); the flag says
    * the two-child path was taken, after which the caller rebalances. */
  function UnlinkAsWritten(c: Tree, k: int): (res: Option<(Tree, bool)>)
    requires c.Node?
    ensures res.Some? ==> Keys(res.value.0) + {c.key} == Keys(c)
    ensures res.Some? ==> (res.value.1 <==> c.left.Node? && c.right.Node?)
  {
    if c.left.Nil? && c.right.Nil? then Some((Nil, false))
    else if c.right.Nil? then Some((c.left, false))
    else if c.left.Nil? then Some((c.right, false))
    else
      var (l, p) := SpliceMax(c.left);
      var c' := Fix(Node(l, p, c.right, c.height));
      if l.Nil? then Some((c', true))
      else
        match TrackAsWritten(l, k)
        case None => None
        case Some(l') => Some((c'.(left := l'), true))
  }

  /**
   * The two-child unlink with the `track = 1` pass walking the right spine as intended (Track),
   * and otherwise as the C orders it: `c`'s height is recomputed before the pass (avl.c:400-403),
   * and the top of the spine gets only its height recomputed, never a rotation.
   */
  function UnlinkPassOnly(c: Tree): (u: Tree)
    requires c.Node?
    ensures Keys(u) + {c.key} == Keys(c) && Inorder(u) == Inorder(Unlink(c))
  {
    if c.left.Nil? && c.right.Nil? then Nil
    else if c.right.Nil? then c.left
    else if c.left.Nil? then c.right
    else
      var (l, p) := SpliceMax(c.left);
      var c' := Fix(Node(l, p, c.right, c.height));
      if l.Nil? then c' else c'.(left := Track(l))
  }

  /** The tree 5(3(2(1), 4), 7(6, 8)), and what the predecessor unlink leaves of its left
    * subtree: 3(2(1), -), its height not yet recomputed. */
  const SpineTree := Node(Node(Node(Node(Nil, 1, Nil, 0), 2, Nil, 1), 3, Node(Nil, 4, Nil, 0), 2), 5,
                          Node(Node(Nil, 6, Nil, 0), 7, Node(Nil, 8, Nil, 0), 1), 3)
  const SpineLeft := Node(Node(Node(Nil, 1, Nil, 0), 2, Nil, 1), 3, Nil, 2)

  /** SpineTree is a sound AVL tree. */
  lemma SpineSound()
    ensures IsAvl(SpineTree)
  {
    SpineOrdered();
    assert Shape(SpineTree.left) && Shape(SpineTree.right);
  }

  lemma SpineOrdered()
    ensures Ordered(SpineTree)
  {
    var a := SpineTree.left.left;
    var b := SpineTree.left;
    var c := SpineTree.right;
    assert Keys(a) == {1, 2};
    assert Keys(b) == {1, 2, 3, 4};
    assert Keys(c) == {6, 7, 8};
    assert Ordered(a);
    assert Ordered(b);
    assert Ordered(c);
  }

  /** Removing 5 from SpineTree with the pass alone: the predecessor 4 takes the root's place and
    * 3(2(1), -) is left as the top of the spine, where the pass changes nothing. */
  lemma SpinePassResult()
    ensures UnlinkPassOnly(SpineTree) == Node(SpineLeft, 4, SpineTree.right, 3)
  {
    assert SpliceMax(SpineTree.left) == (SpineLeft, 4);
    assert Track(SpineLeft) == SpineLeft;
  }

  /** That result is at balance -1, so its rebalancing rotates nothing, and its left child is at
    * balance -2: the tree is left unsound. Unlink rebalances the top of the spine instead. */
  lemma SpinePassUnsound()
    ensures var u := Node(SpineLeft, 4, SpineTree.right, 3);
      Rebalance(u) == u && Bf(u.left) == -2 && !Shape(Fix(Rebalance(u)))
  {
  }

  /** avl_tree_remove as written; None stands for a NULL dereference. */
  function RemoveAsWritten(root: Tree, k: int): (res: Option<(Tree, bool)>)
    ensures root.Nil? ==> res == Some((Nil, false))
    ensures res.Some? ==> Keys(res.value.0) <= Keys(root)
  {
    if root.Nil? then Some((Nil, false))
    else if k == root.key then
      if root.left.Nil? && root.right.Nil? then None
      else if root.right.Nil? then Some((Fix(RebalanceAsWritten(root.left)), true))
      else if root.left.Nil? then Some((Fix(RebalanceAsWritten(root.right)), true))
      else
        var (l, p) := SpliceMax(root.left);
        match TrackAsWritten(l, k)
        case None => None
        case Some(l') => Some((Fix(RebalanceAsWritten(Node(l', p, root.right, root.height))), true))
    else
      match RemoveBelowAsWritten(root, k)
      case None => None
      case Some((r, found)) => Some((Fix(RebalanceAsWritten(r)), found))
  }

  /** Removing the only record: the root becomes NULL and the final rebalancing reads through it
    * (avl.c:560, 599). */
  lemma RemoveSoleAsWritten(k: int)
    ensures RemoveAsWritten(NewNode(k), k) == None
    ensures RemoveRoot(NewNode(k), k) == (Nil, true)
  {
  }

  /** Removing the record of a root with two children always dereferences NULL, in every search
    * tree: the pass that follows the predecessor unlink (avl.c:586) cannot succeed. */
  lemma RemoveRootAsWrittenFails(root: Tree)
    requires root.Node? && root.left.Node? && root.right.Node? && Ordered(root)
    ensures RemoveAsWritten(root, root.key) == None
  {
    var (l, p) := SpliceMax(root.left);
    assert Keys(l) <= Keys(root.left);
    TrackAsWrittenFails(l, root.key);
  }

  /** Removing 3 from 5(3(2(1), 4), 6(-, 7)): the unlinked node's new left child 1 gets the pass
    * and its absent right child is dereferenced. */
  lemma RemoveInnerAsWritten()
    ensures var t := Node(Node(Node(NewNode(1), 2, Nil, 1), 3, NewNode(4), 2), 5,
                          Node(Nil, 6, NewNode(7), 1), 3);
      RemoveAsWritten(t, 3) == None
  {
    var c := Node(Node(NewNode(1), 2, Nil, 1), 3, NewNode(4), 2);
    assert SpliceMax(c.left) == (NewNode(1), 2);
    assert TrackAsWritten(NewNode(1), 3) == None;
    assert UnlinkAsWritten(c, 3) == None;
  }

  /** The tree of RemoveInnerAsWritten is a sound AVL tree. */
  lemma RemoveInnerSound()
    ensures IsAvl(Node(Node(Node(NewNode(1), 2, Nil, 1), 3, NewNode(4), 2), 5,
                       Node(Nil, 6, NewNode(7), 1), 3))
  {
    var a := Node(NewNode(1), 2, Nil, 1);
    var b := Node(a, 3, NewNode(4), 2);
    var c := Node(Nil, 6, NewNode(7), 1);
    var t := Node(b, 5, c, 3);
    assert Keys(a) == {1, 2};
    assert Keys(b) == {1, 2, 3, 4};
    assert Keys(c) == {6, 7};
    assert Ordered(a);
    assert Ordered(b);
    assert Ordered(c);
    assert Ordered(t);
    assert Shape(t);
  }

  /** The tree 4(2(1, 3), 5) is a sound AVL tree. */
  lemma RemoveUnbalancedSound()
    ensures IsAvl(Node(Node(NewNode(1), 2, NewNode(3), 1), 4, NewNode(5), 2))
  {
    var l := Node(NewNode(1), 2, NewNode(3), 1);
    var t := Node(l, 4, NewNode(5), 2);
    assert Keys(l) == {1, 2, 3};
    assert Ordered(l) && Shape(l);
    assert Ordered(t);
  }

  /** Removing 5 from 4(2(1, 3), 5): the root is left two higher on the left, with a left child
    * of balance 0, and the C leaves it so. */
  lemma RemoveUnbalancedAsWritten()
    ensures var t := Node(Node(NewNode(1), 2, NewNode(3), 1), 4, NewNode(5), 2);
      RemoveAsWritten(t, 5) == Some((Node(Node(NewNode(1), 2, NewNode(3), 1), 4, Nil, 2), true)) &&
      !Shape(RemoveAsWritten(t, 5).value.0)
  {
    var l := Node(NewNode(1), 2, NewNode(3), 1);
    var t := Node(l, 4, NewNode(5), 2);
    var r := Node(l, 4, Nil, 2);
    assert UnlinkAsWritten(NewNode(5), 5) == Some((Nil, false));
    assert RemoveBelowAsWritten(t, 5) == Some((r, true));
    assert RebalanceAsWritten(r) == r;
  }

  /** The same removal in the model rotates the root right: 2(1, 4(3)). */
  lemma RemoveUnbalancedRotates()
    ensures var t := Node(Node(NewNode(1), 2, NewNode(3), 1), 4, NewNode(5), 2);
      RemoveRoot(t, 5) == (Node(NewNode(1), 2, Node(NewNode(3), 4, Nil, 1), 2), true)
  {
    var l := Node(NewNode(1), 2, NewNode(3), 1);
    var t := Node(l, 4, NewNode(5), 2);
    var r := Node(l, 4, Nil, 2);
    assert Unlink(NewNode(5)) == Nil;
    assert RemoveBelow(t, 5) == (r, true);
    assert Rebalance(r) == TurnRight(r);
  }

  // ---------------------------------------------------------------------------------------
  // The tree header (avl_tree_t)

  /** avl_tree_t: the root slot and the record count `size`. */
  class AvlTree {
    var root: Tree
    var size: int

    ghost predicate Valid()
      reads this
    {
      IsAvl(root) && size == |Keys(root)|
    }

    /** avl_tree_create: an empty tree. */
    constructor ()
      ensures Valid() && root == Nil && size == 0
    {
      root := Nil;
      size := 0;
    }

    /** avl_tree_insert: the key set gains `k`; `size` grows by one unless `k` was present. */
    method Insert(k: int)
      requires Valid()
      modifies this
      ensures Valid() && Keys(root) == old(Keys(root)) + {k}
      ensures size == old(size) + (if k in old(Keys(root)) then 0 else 1)
      ensures k in old(Keys(root)) ==> root == old(root)
      ensures root == InsertRoot(old(root), k).0
    {
      InsertRootSpec(root, k);
      var (r, dup) := InsertRoot(root, k);
      root := r;
      size := size + (if dup then 0 else 1);
    }

    /** avl_tree_remove: the key set loses `k`; `size` shrinks by one if `k` was present. */
    method Remove(k: int)
      requires Valid()
      modifies this
      ensures Valid() && Keys(root) == old(Keys(root)) - {k}
      ensures size == old(size) - (if k in old(Keys(root)) then 1 else 0)
      ensures k !in old(Keys(root)) ==> root == old(root)
      ensures root == RemoveRoot(old(root), k).0
    {
      RemoveRootSpec(root, k);
      var (r, found) := RemoveRoot(root, k);
      root := r;
      size := size - (if found then 1 else 0);
    }

    /** avl_has_key on this tree. */
    function Has(k: int): (r: int)
      reads this
      requires Valid()
      ensures r == 1 <==> k in Keys(root)
      ensures r == 0 || r == 1
    {
      HasKeyComplete(root, k);
      HasKey(root, k)
    }
  }
}
