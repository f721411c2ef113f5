/** Point queries on the red-black tree: the binary-search descent `locate`
    and the `has` / `get` operations built on it (rbtree/rbtree.h). */
module RBLocate {
  import opened Wrappers
  import opened RBNode

  /** The only domain error: `get` on an absent key. */
  datatype KeyError = KeyError

  /** `s` is `t` or lies somewhere below it. */
  ghost predicate IsSubtree<V>(s: Tree<V>, t: Tree<V>)
  {
    s == t || (t.Node? && (IsSubtree(s, t.left) || IsSubtree(s, t.right)))
  }

  /** `c` is the child of `p` on the side where key `k` belongs. */
  ghost predicate ChildToward<V>(p: Tree<V>, c: Tree<V>, k: int)
  {
    p.Node? && ((k < p.key && p.left == c) || (p.key < k && p.right == c))
  }

  /** `p` is a node the descent towards `k` passes through: the search
      continues below a node only on the side where `k` belongs. */
  ghost predicate OnSearchPath<V>(t: Tree<V>, p: Tree<V>, k: int)
  {
    t == p || (t.Node? && t.key != k && OnSearchPath(if k < t.key then t.left else t.right, p, k))
  }

  /** What `locate` returns: the last node passed before stopping, and the
      node holding the key; `None` stands for a null pointer. */
  datatype Located<V> = Located(prev: Option<Tree<V>>, loc: Option<Tree<V>>)

  /** The descent loop from node `t`, `prev` being the node it was reached from. */
  function LocateFrom<V>(t: Tree<V>, prev: Option<Tree<V>>, k: int): (r: Located<V>)
    requires BST(t)
    requires prev.Some? ==> ChildToward(prev.value, t, k)
    ensures r.loc.Some? <==> k in Keys(t)
    ensures r.loc.Some? ==> r.loc.value.Node? && r.loc.value.key == k && IsSubtree(r.loc.value, t)
    ensures (t.Leaf? || t.key == k) ==> r.prev == prev
    ensures (t.Node? && t.key != k) ==> r.prev.Some? && IsSubtree(r.prev.value, t)
    ensures (t.Node? && t.key != k) ==> OnSearchPath(t, r.prev.value, k)
    ensures r.prev.Some? ==> ChildToward(r.prev.value, if r.loc.Some? then r.loc.value else Leaf, k)
  {
    match t
    case Leaf => Located(prev, None)
    case Node(_, l, key, _, r) =>
      if key == k then Located(prev, Some(t))
      else if key > k then LocateFrom(l, Some(t), k)
      else LocateFrom(r, Some(t), k)
  }

  /** Finds `k` or the place where it belongs (rbtree.h:458-479). */
  function Locate<V>(t: Tree<V>, k: int): (r: Located<V>)
    requires BST(t)
    ensures r.loc.Some? <==> k in Keys(t)
    ensures r.loc.Some? ==> r.loc.value.Node? && r.loc.value.key == k && IsSubtree(r.loc.value, t)
    ensures r.prev.None? <==> (t.Leaf? || t.key == k)
    ensures t.Leaf? ==> r.prev.None? && r.loc.None?
    ensures r.prev.Some? ==> IsSubtree(r.prev.value, t)
    ensures r.prev.Some? ==> OnSearchPath(t, r.prev.value, k)
    ensures r.prev.Some? ==> ChildToward(r.prev.value, if r.loc.Some? then r.loc.value else Leaf, k)
  {
    LocateFrom(t, None, k)
  }

  /** `prev` is pinned down: the one node on the search path whose child
      towards `k` is the located node, or the empty slot where `k` belongs
      (the `(parent_where_should_go, nullptr)` answer of rbtree.h:460-463). */
  lemma {:induction false} LocateFromPrevUnique<V>(t: Tree<V>, prev: Option<Tree<V>>, k: int, p: Tree<V>, c: Tree<V>)
    requires BST(t)
    requires prev.Some? ==> ChildToward(prev.value, t, k)
    requires OnSearchPath(t, p, k) && ChildToward(p, c, k) && (c.Leaf? || c.key == k)
    ensures LocateFrom(t, prev, k).prev == Some(p)
    ensures LocateFrom(t, prev, k).loc == if c.Leaf? then None else Some(c)
  {
    if p != t {
      var child := if k < t.key then t.left else t.right;
      LocateFromPrevUnique(child, Some(t), k, p, c);
    }
  }

  lemma LocatePrevUnique<V>(t: Tree<V>, k: int, p: Tree<V>, c: Tree<V>)
    requires BST(t)
    requires OnSearchPath(t, p, k) && ChildToward(p, c, k) && (c.Leaf? || c.key == k)
    ensures Locate(t, k).prev == Some(p)
    ensures Locate(t, k).loc == if c.Leaf? then None else Some(c)
  {
    LocateFromPrevUnique(t, None, k, p, c);
  }

  /** The node `locate` finds holds the value stored under `k`. */
  lemma {:induction false} SubtreeEntries<V>(s: Tree<V>, t: Tree<V>)
    requires IsSubtree(s, t)
    ensures Entries(s) <= Entries(t)
  {
    if s != t {
      if IsSubtree(s, t.left) {
        SubtreeEntries(s, t.left);
      } else {
        SubtreeEntries(s, t.right);
      }
    }
  }

  /** True iff `k` is stored (rbtree.h:123-128). */
  function Has<V>(t: Tree<V>, k: int): (r: bool)
    requires BST(t)
    ensures r <==> k in Keys(t)
  {
    Locate(t, k).loc.Some?
  }

  /** The value stored under `k`, or `KeyError` when it is absent (rbtree.h:136-169). */
  function Get<V>(t: Tree<V>, k: int): (r: Result<V, KeyError>)
    requires BST(t)
    ensures r.Failure? <==> k !in Keys(t)
    ensures r.Success? ==> (k, r.value) in Entries(t)
  {
    var loc := Locate(t, k).loc;
    if loc.None? then Failure(KeyError)
    else
      SubtreeEntries(loc.value, t);
      Success(loc.value.value)
  }
}
