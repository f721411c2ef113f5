/** Nodes of the red-black tree of rbtree/rbtree.h, as an immutable datatype.
    Ownership of children is the datatype's own nesting, so every child's
    parent link is its owner by construction; the views below (in-order
    sequence, entry set, key set, size) and the red-black predicates are what
    the operations are specified against. Keys are integers. */
module RBNode {

  datatype Color = Red | Black

  datatype Tree<V> = Leaf | Node(color: Color, left: Tree<V>, key: int, value: V, right: Tree<V>)

  /** An absent child counts as black. */
  predicate IsRed<V>(t: Tree<V>)
  {
    t.Node? && t.color == Red
  }

  /** Recolours the root of `t`; an absent node stays absent. */
  function Paint<V>(t: Tree<V>, c: Color): (r: Tree<V>)
    ensures r.Leaf? <==> t.Leaf?
    ensures r.Node? ==> r.color == c && r.left == t.left && r.key == t.key && r.value == t.value && r.right == t.right
  {
    if t.Leaf? then Leaf else t.(color := c)
  }

  // ---------------------------------------------------------------------------
  // Views of the contents

  /** The key/value pairs in in-order (left, node, right) order. */
  function InOrder<V>(t: Tree<V>): seq<(int, V)>
  {
    match t
    case Leaf => []
    case Node(_, l, k, v, r) => InOrder(l) + [(k, v)] + InOrder(r)
  }

  ghost function Entries<V>(t: Tree<V>): set<(int, V)>
  {
    match t
    case Leaf => {}
    case Node(_, l, k, v, r) => Entries(l) + {(k, v)} + Entries(r)
  }

  ghost function Keys<V>(t: Tree<V>): set<int>
  {
    match t
    case Leaf => {}
    case Node(_, l, k, _, r) => Keys(l) + {k} + Keys(r)
  }

  /** Number of nodes. */
  function Count<V>(t: Tree<V>): nat
  {
    match t
    case Leaf => 0
    case Node(_, l, _, _, r) => Count(l) + 1 + Count(r)
  }

  /** The entries of `es` whose key is not `k`. */
  ghost function Without<V>(es: set<(int, V)>, k: int): set<(int, V)>
  {
    set e | e in es && e.0 != k
  }

  // ---------------------------------------------------------------------------
  // Ordering

  ghost predicate Ascending<V>(s: seq<(int, V)>)
  {
    forall i, j :: 0 <= i < j < |s| ==> s[i].0 < s[j].0
  }

  /** Binary-search-tree order: every key of the left subtree is below the
      node's key and every key of the right subtree above it. */
  ghost predicate BST<V>(t: Tree<V>)
  {
    match t
    case Leaf => true
    case Node(_, l, k, _, r) =>
      && BST(l) && BST(r)
      && (forall x :: x in Keys(l) ==> x < k)
      && (forall x :: x in Keys(r) ==> k < x)
  }

  // ---------------------------------------------------------------------------
  // Red-black structure

  /** No red node has a red child. */
  ghost predicate NoRedRed<V>(t: Tree<V>)
  {
    match t
    case Leaf => true
    case Node(c, l, _, _, r) =>
      && NoRedRed(l) && NoRedRed(r)
      && (c == Red ==> !IsRed(l) && !IsRed(r))
  }

  /** Black nodes on the leftmost root-to-null path, the node itself included. */
  function BlackHeight<V>(t: Tree<V>): nat
  {
    match t
    case Leaf => 0
    case Node(c, l, _, _, _) => BlackHeight(l) + (if c == Black then 1 else 0)
  }

  /** Both subtrees of every node have the same black height. */
  ghost predicate Balanced<V>(t: Tree<V>)
  {
    match t
    case Leaf => true
    case Node(_, l, _, _, r) => Balanced(l) && Balanced(r) && BlackHeight(l) == BlackHeight(r)
  }

  /** A red-black subtree: ordered, no red-red edge, balanced (root of any colour). */
  ghost predicate IsRB<V>(t: Tree<V>)
  {
    BST(t) && NoRedRed(t) && Balanced(t)
  }

  /** A whole red-black tree: additionally the root is black. */
  ghost predicate Valid<V>(t: Tree<V>)
  {
    IsRB(t) && !IsRed(t)
  }

  // ---------------------------------------------------------------------------
  // Relating the views

  lemma {:induction false} KeysOfEntries<V>(t: Tree<V>)
    ensures forall e :: e in Entries(t) ==> e.0 in Keys(t)
    ensures forall k :: k in Keys(t) ==> exists v :: (k, v) in Entries(t)
  {
    match t
    case Leaf =>
    case Node(_, l, k, v, r) =>
      KeysOfEntries(l);
      KeysOfEntries(r);
      assert (k, v) in Entries(t);
  }

  /** In a search tree each key holds exactly one value, so the entries form a finite map. */
  lemma {:induction false} EntriesFunctional<V>(t: Tree<V>, k: int, v1: V, v2: V)
    requires BST(t)
    requires (k, v1) in Entries(t) && (k, v2) in Entries(t)
    ensures v1 == v2
  {
    match t
    case Node(_, l, key, v, r) =>
      KeysOfEntries(l);
      KeysOfEntries(r);
      if k < key {
        EntriesFunctional(l, k, v1, v2);
      } else if key < k {
        EntriesFunctional(r, k, v1, v2);
      }
  }

  /** The in-order sequence has one element per node. */
  lemma {:induction false} InOrderCount<V>(t: Tree<V>)
    ensures |InOrder(t)| == Count(t)
  {
    match t
    case Leaf =>
    case Node(_, l, _, _, r) =>
      InOrderCount(l);
      InOrderCount(r);
  }

  /** The in-order sequence lists exactly the entries. */
  lemma {:induction false} EntryInOrder<V>(t: Tree<V>, e: (int, V))
    ensures e in Entries(t) <==> e in InOrder(t)
  {
    match t
    case Leaf =>
    case Node(_, l, _, _, r) =>
      EntryInOrder(l, e);
      EntryInOrder(r, e);
  }

  /** The key set is the set of keys the in-order sequence lists. */
  lemma {:induction false} KeysFromInOrder<V>(t: Tree<V>)
    ensures forall e :: e in InOrder(t) ==> e.0 in Keys(t)
    ensures forall x :: x in Keys(t) ==> exists e :: e in InOrder(t) && e.0 == x
  {
    match t
    case Leaf =>
    case Node(_, l, k, v, r) =>
      KeysFromInOrder(l);
      KeysFromInOrder(r);
      assert InOrder(t) == InOrder(l) + [(k, v)] + InOrder(r);
      assert (k, v) in InOrder(t);
  }

  /** A concatenation around a middle entry ascends exactly when both halves
      ascend and lie on the correct side of the middle key. */
  lemma AscendingSplit<V>(sl: seq<(int, V)>, k: int, v: V, sr: seq<(int, V)>)
    ensures Ascending(sl + [(k, v)] + sr) <==>
      && Ascending(sl) && Ascending(sr)
      && (forall e :: e in sl ==> e.0 < k)
      && (forall e :: e in sr ==> k < e.0)
  {
    var s := sl + [(k, v)] + sr;
    if Ascending(s) {
      forall i, j | 0 <= i < j < |sl| ensures sl[i].0 < sl[j].0 {
        assert s[i] == sl[i] && s[j] == sl[j];
      }
      forall i, j | 0 <= i < j < |sr| ensures sr[i].0 < sr[j].0 {
        assert s[|sl| + 1 + i] == sr[i] && s[|sl| + 1 + j] == sr[j];
      }
      forall e | e in sl ensures e.0 < k {
        var i :| 0 <= i < |sl| && sl[i] == e;
        assert s[i] == e && s[|sl|] == (k, v);
      }
      forall e | e in sr ensures k < e.0 {
        var i :| 0 <= i < |sr| && sr[i] == e;
        assert s[|sl| + 1 + i] == e && s[|sl|] == (k, v);
      }
    }
    if && Ascending(sl) && Ascending(sr)
       && (forall e :: e in sl ==> e.0 < k)
       && (forall e :: e in sr ==> k < e.0)
    {
      forall i, j | 0 <= i < j < |s| ensures s[i].0 < s[j].0 {
        if j < |sl| {
          assert s[i] == sl[i] && s[j] == sl[j];
        } else if i < |sl| {
          assert s[i] == sl[i] && sl[i] in sl;
          if j > |sl| {
            assert s[j] == sr[j - |sl| - 1] && sr[j - |sl| - 1] in sr;
          }
        } else if i == |sl| {
          assert s[j] == sr[j - |sl| - 1] && sr[j - |sl| - 1] in sr;
        } else {
          assert s[i] == sr[i - |sl| - 1] && s[j] == sr[j - |sl| - 1];
        }
      }
    }
  }

  /** Search-tree order is exactly "the in-order keys strictly ascend". */
  lemma {:induction false} BSTIffAscending<V>(t: Tree<V>)
    ensures BST(t) <==> Ascending(InOrder(t))
  {
    match t
    case Leaf =>
    case Node(_, l, k, v, r) =>
      BSTIffAscending(l);
      BSTIffAscending(r);
      KeysFromInOrder(l);
      KeysFromInOrder(r);
      AscendingSplit(InOrder(l), k, v, InOrder(r));
      if forall e :: e in InOrder(l) ==> e.0 < k {
        forall x | x in Keys(l) ensures x < k {
          var e :| e in InOrder(l) && e.0 == x;
        }
      }
      if forall e :: e in InOrder(r) ==> k < e.0 {
        forall x | x in Keys(r) ensures k < x {
          var e :| e in InOrder(r) && e.0 == x;
        }
      }
  }

  /** Two trees with the same in-order sequence hold the same entries, keys
      and number of nodes, and one is ordered exactly when the other is. */
  lemma SameInOrder<V>(a: Tree<V>, b: Tree<V>)
    requires InOrder(a) == InOrder(b)
    ensures Entries(a) == Entries(b)
    ensures Keys(a) == Keys(b)
    ensures Count(a) == Count(b)
    ensures BST(a) <==> BST(b)
  {
    InOrderCount(a);
    InOrderCount(b);
    assert Entries(a) == Entries(b) by {
      forall e | e in Entries(a) ensures e in Entries(b) {
        EntryInOrder(a, e);
        EntryInOrder(b, e);
      }
      forall e | e in Entries(b) ensures e in Entries(a) {
        EntryInOrder(a, e);
        EntryInOrder(b, e);
      }
    }
    assert BST(a) <==> BST(b) by {
      BSTIffAscending(a);
      BSTIffAscending(b);
    }
    assert Keys(a) == Keys(b) by {
      KeysFromInOrder(a);
      KeysFromInOrder(b);
      forall x | x in Keys(a) ensures x in Keys(b) {
        var e :| e in InOrder(a) && e.0 == x;
      }
      forall x | x in Keys(b) ensures x in Keys(a) {
        var e :| e in InOrder(b) && e.0 == x;
      }
    }
  }

  // ---------------------------------------------------------------------------
  // Rotations (rbtree.h:82-112). They move no colour; parent links are structural.

  /** Rotates left around the root; the right child must exist. */
  function RotateLeft<V>(t: Tree<V>): (r: Tree<V>)
    requires t.Node? && t.right.Node?
    ensures r.Node? && r.left.Node?
    ensures InOrder(r) == InOrder(t)
  {
    var y := t.right;
    Node(y.color, Node(t.color, t.left, t.key, t.value, y.left), y.key, y.value, y.right)
  }

  /** Rotates right around the root; the left child must exist. */
  function RotateRight<V>(t: Tree<V>): (r: Tree<V>)
    requires t.Node? && t.left.Node?
    ensures r.Node? && r.right.Node?
    ensures InOrder(r) == InOrder(t)
  {
    var x := t.left;
    Node(x.color, x.left, x.key, x.value, Node(t.color, x.right, t.key, t.value, t.right))
  }

  /** The two rotations undo each other. */
  lemma RotationsInverse<V>(t: Tree<V>)
    requires t.Node? && t.right.Node?
    ensures RotateRight(RotateLeft(t)) == t
    ensures var s := RotateLeft(t); RotateLeft(RotateRight(s)) == s
  {
  }

  /** A rotation keeps the stored entries, the node count and search order. */
  lemma RotateLeftPreserves<V>(t: Tree<V>)
    requires t.Node? && t.right.Node?
    ensures Entries(RotateLeft(t)) == Entries(t) && Count(RotateLeft(t)) == Count(t)
    ensures BST(RotateLeft(t)) <==> BST(t)
  {
    SameInOrder(RotateLeft(t), t);
  }

  lemma RotateRightPreserves<V>(t: Tree<V>)
    requires t.Node? && t.left.Node?
    ensures Entries(RotateRight(t)) == Entries(t) && Count(RotateRight(t)) == Count(t)
    ensures BST(RotateRight(t)) <==> BST(t)
  {
    SameInOrder(RotateRight(t), t);
  }
}
