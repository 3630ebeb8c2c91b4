/**
 * The trie of Trie/trie.c over keys of lowercase letters: each node has one child slot per
 * letter of the alphabet, a count `n_children` of its occupied slots, an `end_of_word` flag and
 * the value stored for the key that ends there; the trie counts its nodes in `nNodes`.
 * Values are integers.
 */
module Trie {

  import opened Options

  /** trie_node_t: value, end_of_word, the child slots (Nil for NULL), n_children. */
  datatype Tree = Nil | Node(value: int, endOfWord: bool, children: seq<Tree>, nChildren: int)

  /** trie_create_node: a node with `a` empty slots, no children and no word ending at it. */
  function Empty(a: nat): (r: Tree)
    ensures r.Node? && |r.children| == a && r.nChildren == 0 && !r.endOfWord
    ensures forall i :: 0 <= i < a ==> r.children[i].Nil?
    ensures WF(r, a) && Size(r) == 1
  {
    var cs := seq(a, _ => Nil);
    EmptySlots(cs);
    Node(0, false, cs, 0)
  }

  /** The slot the C picks for a letter: `c - 'a'`. */
  function Index(c: char): int
  {
    c as int - 'a' as int
  }

  /** Every letter of `key` has a slot in an alphabet of `a` letters. */
  ghost predicate InAlphabet(key: seq<char>, a: nat)
  {
    forall j :: 0 <= j < |key| ==> 0 <= Index(key[j]) < a
  }

  /** The number of occupied slots. */
  function Occupied(cs: seq<Tree>): nat
  {
    if |cs| == 0 then 0 else Occupied(cs[..|cs| - 1]) + (if cs[|cs| - 1].Node? then 1 else 0)
  }

  /** Every node has `a` slots and counts its occupied ones in `nChildren`. */
  ghost predicate WF(t: Tree, a: nat)
  {
    t.Nil? ||
    (|t.children| == a && t.nChildren == Occupied(t.children) &&
     forall i :: 0 <= i < |t.children| ==> WF(t.children[i], a))
  }

  /** Number of nodes, the quantity `nNodes` keeps. */
  function Size(t: Tree): nat
    decreases t, 1
  {
    if t.Nil? then 0 else 1 + SizeAll(t.children)
  }

  function SizeAll(cs: seq<Tree>): nat
    decreases cs, 0
  {
    if |cs| == 0 then 0 else SizeAll(cs[..|cs| - 1]) + Size(cs[|cs| - 1])
  }

  /** The value stored for `key`: follow one slot per letter, and read the value if a word
    * ends at the node reached. */
  function Lookup(t: Tree, key: seq<char>): (r: Option<int>)
    ensures r.Some? ==> t.Node?
    ensures |key| > 0 && t.Node? && !(0 <= Index(key[0]) < |t.children|) ==> r.None?
    decreases |key|
  {
    if t.Nil? then None
    else if |key| == 0 then (if t.endOfWord then Some(t.value) else None)
    else if 0 <= Index(key[0]) < |t.children| then Lookup(t.children[Index(key[0])], key[1..])
    else None
  }

  lemma {:induction false} OccupiedUpdate(cs: seq<Tree>, i: int, x: Tree)
    requires 0 <= i < |cs|
    ensures Occupied(cs[i := x]) ==
      Occupied(cs) - (if cs[i].Node? then 1 else 0) + (if x.Node? then 1 else 0)
    decreases |cs|
  {
    var n := |cs| - 1;
    if i < n {
      OccupiedUpdate(cs[..n], i, x);
      assert cs[i := x][..n] == cs[..n][i := x];
    } else {
      assert cs[i := x][..n] == cs[..n];
    }
  }

  lemma {:induction false} SizeAllUpdate(cs: seq<Tree>, i: int, x: Tree)
    requires 0 <= i < |cs|
    ensures SizeAll(cs[i := x]) == SizeAll(cs) - Size(cs[i]) + Size(x)
    decreases |cs|
  {
    var n := |cs| - 1;
    if i < n {
      SizeAllUpdate(cs[..n], i, x);
      assert cs[i := x][..n] == cs[..n][i := x];
    } else {
      assert cs[i := x][..n] == cs[..n];
    }
  }

  /** Slots that are all empty hold no node. */
  lemma {:induction false} EmptySlots(cs: seq<Tree>)
    requires forall i :: 0 <= i < |cs| ==> cs[i].Nil?
    ensures Occupied(cs) == 0 && SizeAll(cs) == 0
    decreases |cs|
  {
    if |cs| > 0 {
      EmptySlots(cs[..|cs| - 1]);
    }
  }

  /** A slot count of 0 means every slot is empty. */
  lemma {:induction false} NoOccupied(cs: seq<Tree>)
    requires Occupied(cs) == 0
    ensures forall i :: 0 <= i < |cs| ==> cs[i].Nil?
    decreases |cs|
  {
    if |cs| > 0 {
      NoOccupied(cs[..|cs| - 1]);
      assert forall i :: 0 <= i < |cs| - 1 ==> cs[..|cs| - 1][i] == cs[i];
    }
  }

  /** A new node holds one node and no key. */
  lemma EmptySpec(a: nat)
    ensures WF(Empty(a), a) && Size(Empty(a)) == 1
    ensures forall key :: Lookup(Empty(a), key) == None
  {
    EmptySlots(Empty(a).children);
  }

  // ---------------------------------------------------------------------------------------
  // Insertion (trie.c:26-40)

  /** What trie_insert makes of the subtree at `t`: along `key` the missing nodes are created
    * (each counted in its parent's `n_children`), and the node reached gets the value and the
    * end-of-word flag. */
  function Inserted(t: Tree, key: seq<char>, v: int, a: nat): (r: Tree)
    requires t.Node? && WF(t, a) && InAlphabet(key, a)
    ensures r.Node?
    decreases |key|
  {
    if |key| == 0 then t.(value := v, endOfWord := true)
    else
      var i := Index(key[0]);
      var c := t.children[i];
      var c' := Inserted(if c.Nil? then Empty(a) else c, key[1..], v, a);
      t.(children := t.children[i := c'], nChildren := t.nChildren + (if c.Nil? then 1 else 0))
  }

  /** The number of nodes trie_insert creates: from the first missing slot on, one per letter. */
  function Missing(t: Tree, key: seq<char>): (m: nat)
    requires t.Node?
    ensures m <= |key|
    decreases |key|
  {
    if |key| == 0 then 0
    else if !(0 <= Index(key[0]) < |t.children|) then 0
    else if t.children[Index(key[0])].Nil? then |key|
    else Missing(t.children[Index(key[0])], key[1..])
  }

  lemma {:induction false} EmptyMissing(a: nat, key: seq<char>)
    requires InAlphabet(key, a)
    ensures Missing(Empty(a), key) == |key|
  {
  }

  /** Insertion keeps every node well formed and adds exactly the created nodes. */
  lemma {:induction false} InsertedShape(t: Tree, key: seq<char>, v: int, a: nat)
    requires t.Node? && WF(t, a) && InAlphabet(key, a)
    ensures WF(Inserted(t, key, v, a), a)
    ensures Size(Inserted(t, key, v, a)) == Size(t) + Missing(t, key)
    decreases |key|
  {
    if |key| > 0 {
      var i := Index(key[0]);
      var c := t.children[i];
      var c0 := if c.Nil? then Empty(a) else c;
      EmptySpec(a);
      assert InAlphabet(key[1..], a) by {
        forall j | 0 <= j < |key| - 1 ensures 0 <= Index(key[1..][j]) < a {
          assert key[1..][j] == key[j + 1];
        }
      }
      InsertedShape(c0, key[1..], v, a);
      var c' := Inserted(c0, key[1..], v, a);
      OccupiedUpdate(t.children, i, c');
      SizeAllUpdate(t.children, i, c');
      if c.Nil? {
        EmptyMissing(a, key[1..]);
      }
      var r := Inserted(t, key, v, a);
      assert r.children == t.children[i := c'];
      assert forall j :: 0 <= j < |r.children| ==> WF(r.children[j], a);
    }
  }

  /** After inserting `key` with `v`, `key` finds `v` and every other key finds what it found
    * before. */
  lemma {:induction false} InsertedLookup(t: Tree, key: seq<char>, v: int, a: nat, other: seq<char>)
    requires t.Node? && WF(t, a) && InAlphabet(key, a)
    ensures Lookup(Inserted(t, key, v, a), other) == if other == key then Some(v) else Lookup(t, other)
    decreases |key|
  {
    if |key| > 0 && |other| > 0 {
      var i := Index(key[0]);
      var c := t.children[i];
      var c0 := if c.Nil? then Empty(a) else c;
      EmptySpec(a);
      assert InAlphabet(key[1..], a) by {
        forall j | 0 <= j < |key| - 1 ensures 0 <= Index(key[1..][j]) < a {
          assert key[1..][j] == key[j + 1];
        }
      }
      InsertedLookup(c0, key[1..], v, a, other[1..]);
      if other[0] == key[0] {
        assert other == key <==> other[1..] == key[1..] by {
          if other[1..] == key[1..] {
            assert other == [other[0]] + other[1..] && key == [key[0]] + key[1..];
          }
        }
      }
    }
  }

  // ---------------------------------------------------------------------------------------
  // Removal (trie.c:56-90)

  /**
   * __trie_remove as it is evidently meant: when the key's path is missing, or no word ends
   * where it leads, nothing changes; a word ending at a node with children only loses its flag;
   * otherwise the end node is freed, and on the way back each parent clears the slot and
   * decrements `n_children`, and is freed in turn when that leaves it with no children and no
   * word of its own. `keep` marks the root, which is never freed. The result is the new content
   * of the slot (Nil once freed) and the number of nodes freed. See RemoveAsWritten for the C.
   */
  function Removed(t: Tree, key: seq<char>, keep: bool, a: nat): (res: (Tree, nat))
    requires t.Node? && WF(t, a) && InAlphabet(key, a)
    ensures keep ==> res.0.Node?
    decreases |key|
  {
    if |key| == 0 then
      if !t.endOfWord then (t, 0)
      else if t.nChildren != 0 || keep then (t.(endOfWord := false), 0)
      else (Nil, 1)
    else
      var i := Index(key[0]);
      var c := t.children[i];
      if c.Nil? then (t, 0)
      else
        var (c', freed) := Removed(c, key[1..], false, a);
        if c'.Node? then (t.(children := t.children[i := c']), freed)
        else
          var t' := t.(children := t.children[i := Nil], nChildren := t.nChildren - 1);
          if t'.nChildren == 0 && !t.endOfWord && !keep then (Nil, freed + 1) else (t', freed)
  }

  /** A well-formed node with no children holds at most the word ending at it. */
  lemma Childless(t: Tree, a: nat, key: seq<char>)
    requires t.Node? && WF(t, a) && t.nChildren == 0 && |key| > 0
    ensures Lookup(t, key) == None
  {
    NoOccupied(t.children);
  }

  /** Removal keeps the trie well formed and frees exactly the nodes it reports. */
  lemma {:induction false} RemovedShape(t: Tree, key: seq<char>, keep: bool, a: nat)
    requires t.Node? && WF(t, a) && InAlphabet(key, a)
    ensures var (r, freed) := Removed(t, key, keep, a);
      WF(r, a) && Size(r) + freed == Size(t)
    decreases |key|
  {
    if |key| == 0 {
      if t.endOfWord && t.nChildren == 0 && !keep {
        NoOccupied(t.children);
        EmptySlots(t.children);
      }
    } else {
      var i := Index(key[0]);
      var c := t.children[i];
      if c.Node? {
        assert InAlphabet(key[1..], a) by {
          forall j | 0 <= j < |key| - 1 ensures 0 <= Index(key[1..][j]) < a {
            assert key[1..][j] == key[j + 1];
          }
        }
        RemovedShape(c, key[1..], false, a);
        var (c', f) := Removed(c, key[1..], false, a);
        OccupiedUpdate(t.children, i, c');
        SizeAllUpdate(t.children, i, c');
        var t' := t.(children := t.children[i := c']);
        assert forall j :: 0 <= j < |t'.children| ==> WF(t'.children[j], a);
        if c'.Nil? && t.nChildren - 1 == 0 && !t.endOfWord && !keep {
          NoOccupied(t'.children);
          EmptySlots(t'.children);
        }
      }
    }
  }

  /** After removal `key` finds nothing and every other key finds what it found before. */
  lemma {:induction false} RemovedLookup(t: Tree, key: seq<char>, keep: bool, a: nat, other: seq<char>)
    requires t.Node? && WF(t, a) && InAlphabet(key, a)
    ensures Lookup(Removed(t, key, keep, a).0, other) == if other == key then None else Lookup(t, other)
    decreases |key|
  {
    if |key| == 0 {
      if t.endOfWord && t.nChildren == 0 && !keep && |other| > 0 {
        Childless(t, a, other);
      }
    } else {
      var i := Index(key[0]);
      var c := t.children[i];
      if c.Node? {
        assert InAlphabet(key[1..], a) by {
          forall j | 0 <= j < |key| - 1 ensures 0 <= Index(key[1..][j]) < a {
            assert key[1..][j] == key[j + 1];
          }
        }
        var rest := if |other| > 0 then other[1..] else [];
        RemovedLookup(c, key[1..], false, a, rest);
        var (c', f) := Removed(c, key[1..], false, a);
        if |other| > 0 && other[0] == key[0] {
          assert other == key <==> other[1..] == key[1..] by {
            if other[1..] == key[1..] {
              assert other == [other[0]] + other[1..] && key == [key[0]] + key[1..];
            }
          }
        }
        if c'.Nil? && t.nChildren - 1 == 0 && !t.endOfWord && !keep && |other| > 0 {
          var t' := t.(children := t.children[i := c'], nChildren := 0);
          OccupiedUpdate(t.children, i, c');
          Childless(t', a, other);
        }
      }
    }
  }

  /** Removal keeps the trie well formed, frees exactly the nodes it reports, makes `key` find
    * nothing and leaves every other key as it was. */
  lemma RemovedSpec(t: Tree, key: seq<char>, keep: bool, a: nat, other: seq<char>)
    requires t.Node? && WF(t, a) && InAlphabet(key, a)
    ensures var (r, freed) := Removed(t, key, keep, a);
      WF(r, a) && Size(r) + freed == Size(t) &&
      Lookup(r, other) == if other == key then None else Lookup(t, other)
  {
    RemovedShape(t, key, keep, a);
    RemovedLookup(t, key, keep, a, other);
  }

  /** Removing a key that finds nothing changes nothing. */
  lemma {:induction false} RemovedAbsent(t: Tree, key: seq<char>, keep: bool, a: nat)
    requires t.Node? && WF(t, a) && InAlphabet(key, a) && Lookup(t, key) == None
    ensures Removed(t, key, keep, a) == (t, 0)
    decreases |key|
  {
    if |key| > 0 {
      var c := t.children[Index(key[0])];
      if c.Node? {
        assert InAlphabet(key[1..], a) by {
          forall j | 0 <= j < |key| - 1 ensures 0 <= Index(key[1..][j]) < a {
            assert key[1..][j] == key[j + 1];
          }
        }
        RemovedAbsent(c, key[1..], false, a);
        assert t.children[Index(key[0]) := c] == t.children;
      }
    }
  }

  /** __trie_remove as written: a parent is freed as soon as its `n_children` reaches 0, even
    * when a word ends at it, and even when it is the root (trie.c:75-82). */
  function RemoveAsWritten(t: Tree, key: seq<char>, a: nat): (res: (Tree, nat))
    requires t.Node? && WF(t, a) && InAlphabet(key, a)
    ensures res.1 <= |key| + 1 && (res.0.Nil? ==> res.1 >= 1)
    decreases |key|
  {
    if |key| == 0 then
      if !t.endOfWord then (t, 0)
      else if t.nChildren != 0 then (t.(endOfWord := false), 0)
      else (Nil, 1)
    else
      var i := Index(key[0]);
      var c := t.children[i];
      if c.Nil? then (t, 0)
      else
        var (c', freed) := RemoveAsWritten(c, key[1..], a);
        if c'.Node? then (t.(children := t.children[i := c']), freed)
        else
          var t' := t.(children := t.children[i := Nil], nChildren := t.nChildren - 1);
          if t'.nChildren == 0 then (Nil, freed + 1) else (t', freed)
  }

  /** trie_remove as written: None when the root itself was freed and `trie->root` is left
    * dangling. */
  function TrieRemoveAsWritten(root: Tree, key: seq<char>, a: nat): (r: Option<Tree>)
    requires root.Node? && WF(root, a) && InAlphabet(key, a)
    ensures r.Some? ==> r.value.Node? && r.value == RemoveAsWritten(root, key, a).0
  {
    var (r, _) := RemoveAsWritten(root, key, a);
    if r.Nil? then None else Some(r)
  }

  /** Over the letters a and b: insert "a" and remove it; the root is freed. */
  lemma RemoveRootAsWritten()
    ensures var t := Inserted(Empty(2), "a", 1, 2);
      TrieRemoveAsWritten(t, "a", 2) == None && Removed(t, "a", true, 2).0.Node?
  {
    EmptySpec(2);
  }

  /** Over the letters a and b: insert "a", "ab" and "b", then remove "ab"; the node of "a" is
    * freed with its word, which the intended removal keeps. */
  lemma RemoveWordAsWritten()
    ensures var t := Inserted(Inserted(Inserted(Empty(2), "a", 1, 2), "ab", 2, 2), "b", 3, 2);
      WF(t, 2) && Lookup(t, "a") == Some(1) &&
      TrieRemoveAsWritten(t, "ab", 2).Some? &&
      Lookup(TrieRemoveAsWritten(t, "ab", 2).value, "a") == None &&
      Lookup(Removed(t, "ab", true, 2).0, "a") == Some(1)
  {
    EmptySpec(2);
    var t1 := Inserted(Empty(2), "a", 1, 2);
    InsertedShape(Empty(2), "a", 1, 2);
    var t2 := Inserted(t1, "ab", 2, 2);
    InsertedShape(t1, "ab", 2, 2);
    var t := Inserted(t2, "b", 3, 2);
    InsertedShape(t2, "b", 3, 2);
    InsertedLookup(t2, "b", 3, 2, "a");
    InsertedLookup(t1, "ab", 2, 2, "a");
    InsertedLookup(Empty(2), "a", 1, 2, "a");
    RemovedSpec(t, "ab", true, 2, "a");
  }

  // ---------------------------------------------------------------------------------------
  // The trie header (trie_t)

  /** Rebuilds a trie from the walk `path` (the nodes visited, top first, with the slot taken
    * from each) around the node `t` it reached. */
  function Plug(path: seq<(Tree, int)>, t: Tree): Tree
    requires forall j :: 0 <= j < |path| ==> path[j].0.Node? && 0 <= path[j].1 < |path[j].0.children|
    decreases |path|
  {
    if |path| == 0 then t
    else
      var (p, i) := path[|path| - 1];
      Plug(path[..|path| - 1], p.(children := p.children[i := t]))
  }

  lemma PlugLast(path: seq<(Tree, int)>, p: Tree, i: int, t: Tree)
    requires forall j :: 0 <= j < |path| ==> path[j].0.Node? && 0 <= path[j].1 < |path[j].0.children|
    requires p.Node? && 0 <= i < |p.children|
    ensures Plug(path + [(p, i)], t) == Plug(path, p.(children := p.children[i := t]))
  {
    assert (path + [(p, i)])[..|path|] == path;
  }

  /** One letter of trie_insert's walk: creating the missing slot first (as the C does) and then
    * inserting the rest of the key below it gives the same node as Inserted, and the created
    * node is counted in Missing. */
  lemma DescendStep(it: Tree, s: seq<char>, v: int, a: nat)
    requires it.Node? && WF(it, a) && InAlphabet(s, a) && |s| > 0
    ensures var i := Index(s[0]);
      var it1 := if it.children[i].Nil?
        then it.(children := it.children[i := Empty(a)], nChildren := it.nChildren + 1) else it;
      0 <= i < |it.children| && InAlphabet(s[1..], a) &&
      it1.Node? && WF(it1, a) && it1.children[i].Node? && WF(it1.children[i], a) &&
      Inserted(it, s, v, a) == it1.(children := it1.children[i := Inserted(it1.children[i], s[1..], v, a)]) &&
      Missing(it, s) == (if it.children[i].Nil? then 1 else 0) + Missing(it1.children[i], s[1..])
  {
    var i := Index(s[0]);
    assert InAlphabet(s[1..], a) by {
      forall m | 0 <= m < |s| - 1 ensures 0 <= Index(s[1..][m]) < a {
        assert s[1..][m] == s[m + 1];
      }
    }
    if it.children[i].Nil? {
      OccupiedUpdate(it.children, i, Empty(a));
      EmptyMissing(a, s[1..]);
      var it1 := it.(children := it.children[i := Empty(a)], nChildren := it.nChildren + 1);
      assert forall m :: 0 <= m < |it1.children| ==> WF(it1.children[m], a);
      assert it1.children[i := Inserted(Empty(a), s[1..], v, a)]
          == it.children[i := Inserted(Empty(a), s[1..], v, a)];
    }
  }

  class TrieTree {
    var root: Tree
    var nNodes: int
    var alphabetSize: nat

    ghost predicate Valid()
      reads this
    {
      root.Node? && WF(root, alphabetSize) && nNodes == Size(root)
    }

    /** trie_create: a childless root, one node. */
    constructor (a: nat)
      ensures Valid() && root == Empty(a) && nNodes == 1 && alphabetSize == a
    {
      EmptySpec(a);
      root := Empty(a);
      nNodes := 1;
      alphabetSize := a;
    }

    /**
     * trie_insert: walks the key letter by letter, creating each missing node (and counting it
     * in the parent's `n_children` and in `nNodes`), then stores the value at the node reached
     * and marks it as the end of a word.
     */
    method Insert(key: seq<char>, v: int)
      requires Valid() && InAlphabet(key, alphabetSize)
      modifies this
      ensures Valid() && alphabetSize == old(alphabetSize)
      ensures root == Inserted(old(root), key, v, alphabetSize)
      ensures nNodes == old(nNodes) + Missing(old(root), key)
      ensures Lookup(root, key) == Some(v)
      ensures forall other :: other != key ==> Lookup(root, other) == Lookup(old(root), other)
    {
      var a := alphabetSize;
      ghost var root0 := root;
      var path: seq<(Tree, int)> := [];
      var it := root;
      var j := 0;
      EmptySpec(a);
      while j < |key|
        invariant 0 <= j <= |key| && alphabetSize == a
        invariant it.Node? && WF(it, a)
        invariant forall m :: 0 <= m < |path| ==> path[m].0.Node? && 0 <= path[m].1 < |path[m].0.children|
        invariant InAlphabet(key[j..], a)
        invariant Inserted(root0, key, v, a) == Plug(path, Inserted(it, key[j..], v, a))
        invariant nNodes + Missing(it, key[j..]) == old(nNodes) + Missing(root0, key)
        decreases |key| - j
      {
        var i := Index(key[j]);
        DescendStep(it, key[j..], v, a);
        assert key[j..][0] == key[j] && key[j..][1..] == key[j + 1..];
        if it.children[i].Nil? {
          it := it.(children := it.children[i := Empty(a)], nChildren := it.nChildren + 1);
          nNodes := nNodes + 1;
        }
        PlugLast(path, it, i, Inserted(it.children[i], key[j + 1..], v, a));
        path := path + [(it, i)];
        it := it.children[i];
        j := j + 1;
      }
      assert key[j..] == [];
      it := it.(value := v, endOfWord := true);
      root := Plug(path, it);
      assert root == Inserted(root0, key, v, a);
      InsertedShape(root0, key, v, a);
      forall other | true
        ensures Lookup(root, other) == if other == key then Some(v) else Lookup(root0, other)
      {
        InsertedLookup(root0, key, v, a, other);
      }
    }

    /** trie_search: NULL (None) when a letter's slot is empty or no word ends at the node the
      * key leads to, else the value stored there. */
    method Search(key: seq<char>) returns (r: Option<int>)
      requires Valid() && InAlphabet(key, alphabetSize)
      ensures r == Lookup(root, key)
    {
      var it := root;
      var j := 0;
      while j < |key|
        invariant 0 <= j <= |key|
        invariant it.Node? && WF(it, alphabetSize)
        invariant Lookup(root, key) == Lookup(it, key[j..])
        decreases |key| - j
      {
        var i := Index(key[j]);
        assert key[j..][0] == key[j] && key[j..][1..] == key[j + 1..];
        if it.children[i].Node? {
          it := it.children[i];
          j := j + 1;
        } else {
          return None;
        }
      }
      if !it.endOfWord {
        return None;
      }
      return Some(it.value);
    }

    /** trie_remove, with the root kept: `nNodes` drops by the nodes freed. */
    method Remove(key: seq<char>)
      requires Valid() && InAlphabet(key, alphabetSize)
      modifies this
      ensures Valid() && alphabetSize == old(alphabetSize)
      ensures Lookup(root, key) == None
      ensures forall other :: other != key ==> Lookup(root, other) == Lookup(old(root), other)
      ensures old(Lookup(root, key)) == None ==> root == old(root) && nNodes == old(nNodes)
      ensures var (r, freed) := Removed(old(root), key, true, alphabetSize);
        root == r && nNodes == old(nNodes) - freed
    {
      var (r, freed) := Removed(root, key, true, alphabetSize);
      ghost var root0 := root;
      forall other | true
        ensures WF(r, alphabetSize) && Size(r) + freed == Size(root0)
        ensures Lookup(r, other) == if other == key then None else Lookup(root0, other)
      {
        RemovedSpec(root0, key, true, alphabetSize, other);
      }
      if Lookup(root, key) == None {
        RemovedAbsent(root, key, true, alphabetSize);
      }
      root := r;
      nNodes := nNodes - freed;
    }
  }
}
