/** Insertion into the red-black tree (rbtree/rbtree.h:171-253).

    The source descends with `locate`, attaches a RED node, and then walks
    up from it while its parent is red, looking at the parent, grandparent
    and uncle. Here the descent is recursive and that walk happens on the
    way back up: `FixLeft` / `FixRight` are one iteration of the loop, run
    at the grandparent, and do nothing when the child below is not a red
    node with a red child. */
module RBInsert {
  import opened RBNode

  /** One fixup step at grandparent (c, k, v) whose left child `p` was just
      rebuilt and whose right child `u` is the uncle (rbtree.h:204-224). */
  function FixLeft<V>(c: Color, p: Tree<V>, k: int, v: V, u: Tree<V>): (r: Tree<V>)
    ensures r.Node?
    ensures InOrder(r) == InOrder(p) + [(k, v)] + InOrder(u)
  {
    if IsRed(p) && (IsRed(p.left) || IsRed(p.right)) then
      if IsRed(u) then
        // uncle red: recolour and push the violation up to the grandparent
        Node(Red, Paint(p, Black), k, v, Paint(u, Black))
      else
        // uncle black: an inner grandchild is first rotated to the outside
        var p' := if IsRed(p.left) then p else RotateLeft(p);
        RotateRight(Node(Red, Paint(p', Black), k, v, u))
    else
      Node(c, p, k, v, u)
  }

  /** The mirror step when the right child was rebuilt (rbtree.h:225-245). */
  function FixRight<V>(c: Color, u: Tree<V>, k: int, v: V, p: Tree<V>): (r: Tree<V>)
    ensures r.Node?
    ensures InOrder(r) == InOrder(u) + [(k, v)] + InOrder(p)
  {
    if IsRed(p) && (IsRed(p.left) || IsRed(p.right)) then
      if IsRed(u) then
        Node(Red, Paint(u, Black), k, v, Paint(p, Black))
      else
        var p' := if IsRed(p.right) then p else RotateRight(p);
        RotateLeft(Node(Red, u, k, v, Paint(p', Black)))
    else
      Node(c, u, k, v, p)
  }

  /** Descends to `k`, overwriting its value or attaching a new RED node, and
      runs the fixup on the way back up. */
  function Ins<V>(t: Tree<V>, k: int, v: V): (r: Tree<V>)
    ensures r.Node?
  {
    match t
    case Leaf => Node(Red, Leaf, k, v, Leaf)
    case Node(c, l, key, val, rt) =>
      if k < key then FixLeft(c, Ins(l, k, v), key, val, rt)
      else if key < k then FixRight(c, l, key, val, Ins(rt, k, v))
      else Node(c, l, key, v, rt)
  }

  /** `insert` on a whole tree: the root is painted black at the end (rbtree.h:248). */
  function Insert<V>(t: Tree<V>, k: int, v: V): (r: Tree<V>)
    requires Valid(t)
    ensures Valid(r)
    ensures Entries(r) == Without(Entries(t), k) + {(k, v)}
    ensures Keys(r) == Keys(t) + {k}
    ensures Count(r) == if k in Keys(t) then Count(t) else Count(t) + 1
  {
    InsContents(t, k, v);
    InsColours(t, k, v);
    Paint(Ins(t, k, v), Black)
  }

  // ---------------------------------------------------------------------------
  // Contents

  lemma {:induction false} InsContents<V>(t: Tree<V>, k: int, v: V)
    requires BST(t)
    ensures BST(Ins(t, k, v))
    ensures Entries(Ins(t, k, v)) == Without(Entries(t), k) + {(k, v)}
    ensures Keys(Ins(t, k, v)) == Keys(t) + {k}
    ensures Count(Ins(t, k, v)) == if k in Keys(t) then Count(t) else Count(t) + 1
  {
    match t
    case Leaf =>
    case Node(c, l, key, val, rt) =>
      if k < key {
        InsContents(l, k, v);
        InsLeftContents(c, l, key, val, rt, k, v);
      } else if key < k {
        InsContents(rt, k, v);
        InsRightContents(c, l, key, val, rt, k, v);
      } else {
        InsHereEntries(c, l, key, val, rt, v);
      }
  }

  /** One step of `InsContents` down the left side. */
  lemma InsLeftContents<V>(c: Color, l: Tree<V>, key: int, val: V, rt: Tree<V>, k: int, v: V)
    requires BST(Node(c, l, key, val, rt)) && k < key
    requires BST(Ins(l, k, v))
    requires Entries(Ins(l, k, v)) == Without(Entries(l), k) + {(k, v)}
    requires Keys(Ins(l, k, v)) == Keys(l) + {k}
    requires Count(Ins(l, k, v)) == if k in Keys(l) then Count(l) else Count(l) + 1
    ensures var t := Node(c, l, key, val, rt);
      && BST(Ins(t, k, v))
      && Entries(Ins(t, k, v)) == Without(Entries(t), k) + {(k, v)}
      && Keys(Ins(t, k, v)) == Keys(t) + {k}
      && Count(Ins(t, k, v)) == if k in Keys(t) then Count(t) else Count(t) + 1
  {
    var t := Node(c, l, key, val, rt);
    var l' := Ins(l, k, v);
    assert BST(Node(c, l', key, val, rt)) by {
      InsLeftOrder(c, l, key, val, rt, k, l');
    }
    SameInOrder(Ins(t, k, v), Node(c, l', key, val, rt));
    assert Entries(Ins(t, k, v)) == Without(Entries(t), k) + {(k, v)} by {
      InsLeftEntries(c, l, key, val, rt, k, v);
    }
    assert k in Keys(t) <==> k in Keys(l) by { KeysOfEntries(rt); }
  }

  /** One step of `InsContents` down the right side. */
  lemma InsRightContents<V>(c: Color, l: Tree<V>, key: int, val: V, rt: Tree<V>, k: int, v: V)
    requires BST(Node(c, l, key, val, rt)) && key < k
    requires BST(Ins(rt, k, v))
    requires Entries(Ins(rt, k, v)) == Without(Entries(rt), k) + {(k, v)}
    requires Keys(Ins(rt, k, v)) == Keys(rt) + {k}
    requires Count(Ins(rt, k, v)) == if k in Keys(rt) then Count(rt) else Count(rt) + 1
    ensures var t := Node(c, l, key, val, rt);
      && BST(Ins(t, k, v))
      && Entries(Ins(t, k, v)) == Without(Entries(t), k) + {(k, v)}
      && Keys(Ins(t, k, v)) == Keys(t) + {k}
      && Count(Ins(t, k, v)) == if k in Keys(t) then Count(t) else Count(t) + 1
  {
    var t := Node(c, l, key, val, rt);
    var r' := Ins(rt, k, v);
    assert BST(Node(c, l, key, val, r')) by {
      InsRightOrder(c, l, key, val, rt, k, r');
    }
    SameInOrder(Ins(t, k, v), Node(c, l, key, val, r'));
    assert Entries(Ins(t, k, v)) == Without(Entries(t), k) + {(k, v)} by {
      InsRightEntries(c, l, key, val, rt, k, v);
    }
    assert k in Keys(t) <==> k in Keys(rt) by { KeysOfEntries(l); }
  }

  /** Adding a key that belongs on one side keeps the search-tree order. */
  lemma InsLeftOrder<V>(c: Color, l: Tree<V>, key: int, val: V, rt: Tree<V>, k: int, l': Tree<V>)
    requires BST(Node(c, l, key, val, rt)) && k < key && BST(l') && Keys(l') == Keys(l) + {k}
    ensures BST(Node(c, l', key, val, rt))
  {
  }

  lemma InsRightOrder<V>(c: Color, l: Tree<V>, key: int, val: V, rt: Tree<V>, k: int, r': Tree<V>)
    requires BST(Node(c, l, key, val, rt)) && key < k && BST(r') && Keys(r') == Keys(rt) + {k}
    ensures BST(Node(c, l, key, val, r'))
  {
  }

  /** Entries of a node rebuilt around a new left subtree `l'`. */
  lemma InsLeftEntries<V>(c: Color, l: Tree<V>, key: int, val: V, rt: Tree<V>, k: int, v: V)
    requires BST(Node(c, l, key, val, rt)) && k < key
    ensures Without(Entries(Node(c, l, key, val, rt)), k) + {(k, v)}
         == (Without(Entries(l), k) + {(k, v)}) + {(key, val)} + Entries(rt)
  {
    KeysOfEntries(rt);
    var t := Node(c, l, key, val, rt);
    forall e | e in Without(Entries(t), k) + {(k, v)}
      ensures e in (Without(Entries(l), k) + {(k, v)}) + {(key, val)} + Entries(rt)
    {
    }
    forall e | e in (Without(Entries(l), k) + {(k, v)}) + {(key, val)} + Entries(rt)
      ensures e in Without(Entries(t), k) + {(k, v)}
    {
      if e in Entries(rt) {
        assert e.0 in Keys(rt);
      }
    }
  }

  lemma InsRightEntries<V>(c: Color, l: Tree<V>, key: int, val: V, rt: Tree<V>, k: int, v: V)
    requires BST(Node(c, l, key, val, rt)) && key < k
    ensures Without(Entries(Node(c, l, key, val, rt)), k) + {(k, v)}
         == Entries(l) + {(key, val)} + (Without(Entries(rt), k) + {(k, v)})
  {
    KeysOfEntries(l);
    var t := Node(c, l, key, val, rt);
    forall e | e in Without(Entries(t), k) + {(k, v)}
      ensures e in Entries(l) + {(key, val)} + (Without(Entries(rt), k) + {(k, v)})
    {
    }
    forall e | e in Entries(l) + {(key, val)} + (Without(Entries(rt), k) + {(k, v)})
      ensures e in Without(Entries(t), k) + {(k, v)}
    {
      if e in Entries(l) {
        assert e.0 in Keys(l);
      }
    }
  }

  lemma InsHereEntries<V>(c: Color, l: Tree<V>, key: int, val: V, rt: Tree<V>, v: V)
    requires BST(Node(c, l, key, val, rt))
    ensures Without(Entries(Node(c, l, key, val, rt)), key) + {(key, v)}
         == Entries(l) + {(key, v)} + Entries(rt)
  {
    KeysOfEntries(l);
    KeysOfEntries(rt);
    var t := Node(c, l, key, val, rt);
    forall e | e in Entries(l) + {(key, v)} + Entries(rt)
      ensures e in Without(Entries(t), key) + {(key, v)}
    {
      if e in Entries(l) {
        assert e.0 in Keys(l);
      } else if e in Entries(rt) {
        assert e.0 in Keys(rt);
      }
    }
  }

  // ---------------------------------------------------------------------------
  // Colours

  /** A red node with one red child whose subtrees are otherwise red-black
      of equal black height: the state the fixup loop repairs. */
  ghost predicate RedInfraction<V>(t: Tree<V>)
  {
    && t.Node? && t.color == Red
    && NoRedRed(t.left) && NoRedRed(t.right)
    && !(IsRed(t.left) && IsRed(t.right))
  }

  /** Below a black node the fixup leaves no red-red edge; below a red node
      at most the one the grandparent will repair. Black height is kept. */
  lemma {:induction false} InsColours<V>(t: Tree<V>, k: int, v: V)
    requires NoRedRed(t) && Balanced(t)
    ensures Balanced(Ins(t, k, v)) && BlackHeight(Ins(t, k, v)) == BlackHeight(t)
    ensures !IsRed(t) ==> NoRedRed(Ins(t, k, v))
    ensures IsRed(t) ==> RedInfraction(Ins(t, k, v))
  {
    match t
    case Leaf =>
    case Node(c, l, key, val, rt) =>
      if k < key {
        InsColours(l, k, v);
        FixLeftColours(c, Ins(l, k, v), key, val, rt, IsRed(l));
      } else if key < k {
        InsColours(rt, k, v);
        FixRightColours(c, l, key, val, Ins(rt, k, v), IsRed(rt));
      }
  }

  lemma FixLeftColours<V>(c: Color, p: Tree<V>, k: int, v: V, u: Tree<V>, wasRed: bool)
    requires Balanced(p) && Balanced(u) && NoRedRed(u)
    requires BlackHeight(p) == BlackHeight(u)
    requires c == Red ==> !wasRed && !IsRed(u)
    requires !wasRed ==> NoRedRed(p)
    requires wasRed ==> RedInfraction(p)
    ensures Balanced(FixLeft(c, p, k, v, u))
    ensures BlackHeight(FixLeft(c, p, k, v, u)) == BlackHeight(p) + (if c == Black then 1 else 0)
    ensures c == Black ==> NoRedRed(FixLeft(c, p, k, v, u))
    ensures c == Red ==> RedInfraction(FixLeft(c, p, k, v, u))
  {
    if IsRed(p) && (IsRed(p.left) || IsRed(p.right)) && !IsRed(u) && !IsRed(p.left) {
      var p' := RotateLeft(p);
      assert p'.left.left == p.left;
    }
  }

  lemma FixRightColours<V>(c: Color, u: Tree<V>, k: int, v: V, p: Tree<V>, wasRed: bool)
    requires Balanced(p) && Balanced(u) && NoRedRed(u)
    requires BlackHeight(p) == BlackHeight(u)
    requires c == Red ==> !wasRed && !IsRed(u)
    requires !wasRed ==> NoRedRed(p)
    requires wasRed ==> RedInfraction(p)
    ensures Balanced(FixRight(c, u, k, v, p))
    ensures BlackHeight(FixRight(c, u, k, v, p)) == BlackHeight(u) + (if c == Black then 1 else 0)
    ensures c == Black ==> NoRedRed(FixRight(c, u, k, v, p))
    ensures c == Red ==> RedInfraction(FixRight(c, u, k, v, p))
  {
  }

  // ---------------------------------------------------------------------------
  // Overwriting an existing key

  /** A tree with its values erased: colours, keys and structure only. */
  datatype Shape = SLeaf | SNode(color: Color, left: Shape, key: int, right: Shape)

  function ShapeOf<V>(t: Tree<V>): Shape
  {
    match t
    case Leaf => SLeaf
    case Node(c, l, k, _, r) => SNode(c, ShapeOf(l), k, ShapeOf(r))
  }

  /** Inserting a key that is already stored changes only that key's value:
      no node is added, recoloured or moved (rbtree.h:180-182). */
  lemma {:induction false} InsExistingKeepsShape<V>(t: Tree<V>, k: int, v: V)
    requires BST(t) && NoRedRed(t) && k in Keys(t)
    ensures ShapeOf(Ins(t, k, v)) == ShapeOf(t)
  {
    match t
    case Node(c, l, key, val, rt) =>
      KeysOfEntries(l);
      KeysOfEntries(rt);
      if k < key {
        InsExistingKeepsShape(l, k, v);
        var p := Ins(l, k, v);
        assert IsRed(p) == IsRed(l) && IsRed(p.left) == IsRed(l.left) && IsRed(p.right) == IsRed(l.right);
      } else if key < k {
        InsExistingKeepsShape(rt, k, v);
        var p := Ins(rt, k, v);
        assert IsRed(p) == IsRed(rt) && IsRed(p.left) == IsRed(rt.left) && IsRed(p.right) == IsRed(rt.right);
      }
  }
}
