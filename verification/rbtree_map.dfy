/** The public face of the red-black tree (rbtree/rbtree.h:57-377): the root
    together with the recorded number of items, and the map it represents. */
module RBMap {
  import opened Wrappers
  import opened RBNode
  import RBLocate
  import RBInsert
  import RBRemove
  import RBCheck

  /** `RBTree`: the root and `mSize`. */
  datatype RBTree<V> = RBTree(root: Tree<V>, size: nat)

  /** What every public operation keeps: a valid red-black tree whose recorded
      size is its node count. */
  ghost predicate Inv<V>(m: RBTree<V>)
  {
    Valid(m.root) && m.size == Count(m.root)
  }

  /** The finite map a tree stands for. */
  ghost function Contents<V>(t: Tree<V>): map<int, V>
  {
    match t
    case Leaf => map[]
    case Node(_, l, k, v, r) => (Contents(l) + Contents(r))[k := v]
  }

  lemma {:induction false} ContentsKeys<V>(t: Tree<V>)
    ensures Contents(t).Keys == Keys(t)
  {
    match t
    case Leaf =>
    case Node(_, l, _, _, r) =>
      ContentsKeys(l);
      ContentsKeys(r);
  }

  /** In an ordered tree the map holds exactly the entries. */
  lemma {:induction false} ContentsEntry<V>(t: Tree<V>, k: int, v: V)
    requires BST(t)
    ensures (k, v) in Entries(t) <==> k in Contents(t) && Contents(t)[k] == v
  {
    match t
    case Leaf =>
    case Node(_, l, key, val, r) =>
      ContentsEntry(l, k, v);
      ContentsEntry(r, k, v);
      ContentsKeys(l);
      ContentsKeys(r);
      KeysOfEntries(l);
      KeysOfEntries(r);
      if k < key {
        assert k !in Keys(r);
      } else if key < k {
        assert k !in Keys(l);
      } else {
        assert (k, v) !in Entries(l) && (k, v) !in Entries(r);
      }
  }

  /** Two ordered trees with the same entries stand for the same map; more
      generally the entries pin the map down. */
  lemma EntriesDetermineContents<V>(t: Tree<V>, m: map<int, V>)
    requires BST(t)
    requires forall k, v :: (k, v) in Entries(t) <==> k in m && m[k] == v
    ensures Contents(t) == m
  {
    ContentsKeys(t);
    KeysOfEntries(t);
    forall k | k in m ensures k in Contents(t) && Contents(t)[k] == m[k] {
      assert (k, m[k]) in Entries(t);
      ContentsEntry(t, k, m[k]);
    }
    forall k | k in Contents(t) ensures k in m {
      ContentsEntry(t, k, Contents(t)[k]);
    }
  }

  // ---------------------------------------------------------------------------
  // Operations

  /** The constructor: an empty tree of size 0. */
  function Empty<V>(): (m: RBTree<V>)
    ensures Inv(m) && Contents(m.root) == map[] && m.size == 0
  {
    RBTree(Leaf, 0)
  }

  /** `has` (lines 122-133). */
  function Has<V>(m: RBTree<V>, k: int): (r: bool)
    requires Inv(m)
    ensures r <==> k in Contents(m.root)
  {
    ContentsKeys(m.root);
    RBLocate.Has(m.root, k)
  }

  /** `get` (lines 135-169); a missing key raises `KeyError`. */
  function Get<V>(m: RBTree<V>, k: int): (r: Result<V, RBLocate.KeyError>)
    requires Inv(m)
    ensures r.Success? <==> k in Contents(m.root)
    ensures r.Success? ==> r.value == Contents(m.root)[k]
  {
    ContentsKeys(m.root);
    var r := RBLocate.Get(m.root, k);
    if r.Success? then ContentsEntry(m.root, k, r.value); r else r
  }

  /** `insert` (lines 171-253): sets the value of `k`, growing the size
      only for a new key. */
  function Insert<V>(m: RBTree<V>, k: int, v: V): (r: RBTree<V>)
    requires Inv(m)
    ensures Inv(r)
    ensures Contents(r.root) == Contents(m.root)[k := v]
    ensures r.size == if k in Contents(m.root) then m.size else m.size + 1
  {
    var root := RBInsert.Insert(m.root, k, v);
    InsertContents(m.root, k, v, root);
    ContentsKeys(m.root);
    RBTree(root, if RBLocate.Has(m.root, k) then m.size else m.size + 1)
  }

  lemma InsertContents<V>(t: Tree<V>, k: int, v: V, t': Tree<V>)
    requires BST(t) && BST(t')
    requires Entries(t') == Without(Entries(t), k) + {(k, v)}
    ensures Contents(t') == Contents(t)[k := v]
  {
    forall k', v' ensures (k', v') in Entries(t') <==> k' in Contents(t)[k := v] && Contents(t)[k := v][k'] == v' {
      ContentsEntry(t, k', v');
    }
    EntriesDetermineContents(t', Contents(t)[k := v]);
  }

  /** Overwriting a stored key keeps the size and the tree's shape: the
      same nodes with the same colours and keys (lines 180-182). */
  lemma InsertExistingKeepsShape<V>(m: RBTree<V>, k: int, v: V)
    requires Inv(m) && k in Contents(m.root)
    ensures Insert(m, k, v).size == m.size
    ensures RBInsert.ShapeOf(Insert(m, k, v).root) == RBInsert.ShapeOf(m.root)
  {
    ContentsKeys(m.root);
    RBInsert.InsExistingKeepsShape(m.root, k, v);
  }

  /** `remove` (lines 255-377): drops `k` if present, shrinking the size;
      an absent key leaves the tree as it is. */
  function Remove<V>(m: RBTree<V>, k: int): (r: RBTree<V>)
    requires Inv(m)
    ensures Inv(r)
    ensures Contents(r.root) == Contents(m.root) - {k}
    ensures r.size == if k in Contents(m.root) then m.size - 1 else m.size
    ensures k !in Contents(m.root) ==> r == m
  {
    ContentsKeys(m.root);
    if !RBLocate.Has(m.root, k) then m
    else
      var root := RBRemove.Remove(m.root, k);
      RemoveContents(m.root, k, root);
      RBTree(root, m.size - 1)
  }

  lemma RemoveContents<V>(t: Tree<V>, k: int, t': Tree<V>)
    requires BST(t) && BST(t')
    requires Entries(t') == Without(Entries(t), k)
    ensures Contents(t') == Contents(t) - {k}
  {
    forall k', v' ensures (k', v') in Entries(t') <==> k' in Contents(t) - {k} && (Contents(t) - {k})[k'] == v' {
      ContentsEntry(t, k', v');
    }
    EntriesDetermineContents(t', Contents(t) - {k});
  }

  /** `checkInvariant` on the whole tree: it passes on every tree the
      operations produce, and fails on a tree whose recorded size is off. */
  function CheckInvariant<V>(m: RBTree<V>): (ok: bool)
    ensures Inv(m) ==> ok
    ensures m.size != Count(m.root) ==> !ok
  {
    RBCheck.CheckInvariant(m.root, m.size)
  }
}
