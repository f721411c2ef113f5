/** Removal from the red-black tree (rbtree/rbtree.h:255-393), following the
    textbook (CLRS) algorithm the source implements.

    The recursion returns the rebuilt subtree together with `short`: true
    when the subtree lost one black level because a black node was cut out
    below it, which is the "extra black" the source's fixup loop carries on
    `cur`. `BalLeft` / `BalRight` are one iteration of that loop, run at the
    parent of the short subtree; a short result climbs one level, which is
    the loop's `cur = cur->parent`. */
module RBRemove {
  import opened RBNode
  import RBLocate

  // ---------------------------------------------------------------------------
  // The in-order successor (rbtree.h:380-393)

  /** The leftmost entry of a non-empty subtree: the in-order successor of a
      node when applied to its right subtree. */
  function Leftmost<V>(t: Tree<V>): (e: (int, V))
    requires t.Node?
    ensures e in Entries(t)
    ensures BST(t) ==> forall x :: x in Keys(t) ==> e.0 <= x
  {
    if t.left.Leaf? then (t.key, t.value) else Leftmost(t.left)
  }

  /** The successor of a node with a right child is the smallest key above it. */
  lemma SuccessorIsNextKey<V>(t: Tree<V>)
    requires BST(t) && t.Node? && t.right.Node?
    ensures t.key < Leftmost(t.right).0
    ensures forall x :: x in Keys(t) && t.key < x ==> Leftmost(t.right).0 <= x
  {
    KeysOfEntries(t.right);
    KeysOfEntries(t.left);
  }

  // ---------------------------------------------------------------------------
  // Delete fixup (rbtree.h:313-372)

  /** One fixup iteration at parent (c, k, v) whose left subtree `l` is short. */
  function BalLeft<V>(c: Color, l: Tree<V>, k: int, v: V, r: Tree<V>): (res: (Tree<V>, bool))
    ensures InOrder(res.0) == InOrder(l) + [(k, v)] + InOrder(r)
  {
    if IsRed(l) then
      // a red `cur` ends the loop and is painted black (line 371)
      (Node(c, Paint(l, Black), k, v, r), false)
    else if IsRed(r) then
      // case 1: red sibling; recolour, rotate at the parent, go on with the new sibling
      var t1 := RotateLeft(Node(Red, l, k, v, Paint(r, Black)));
      var inner := BalLeftBlack(t1.left.color, t1.left.left, t1.left.key, t1.left.value, t1.left.right);
      // a short `inner` means `cur` moved up to the red parent, which ends the loop black
      (t1.(left := if inner.1 then Paint(inner.0, Black) else inner.0), false)
    else
      BalLeftBlack(c, l, k, v, r)
  }

  /** Cases 2-4 of the left fixup: the sibling `s` is black or absent. */
  function BalLeftBlack<V>(c: Color, l: Tree<V>, k: int, v: V, s: Tree<V>): (res: (Tree<V>, bool))
    ensures InOrder(res.0) == InOrder(l) + [(k, v)] + InOrder(s)
  {
    if s.Leaf? then
      // no sibling: cannot happen below a balanced tree
      (Node(c, l, k, v, s), true)
    else if !IsRed(s.left) && !IsRed(s.right) then
      // case 2: both of the sibling's children black; recolour and move up
      (Node(c, l, k, v, Paint(s, Red)), true)
    else
      // case 3: far child black, so the near one is red; rotate at the sibling
      var s' := if IsRed(s.right) then s
                else RotateRight(Node(Red, Paint(s.left, Black), s.key, s.value, s.right));
      // case 4: far child red; recolour and rotate at the parent, which ends the loop
      (RotateLeft(Node(Black, l, k, v, Node(c, s'.left, s'.key, s'.value, Paint(s'.right, Black)))), false)
  }

  /** The mirror iteration: the right subtree `r` is short. */
  function BalRight<V>(c: Color, l: Tree<V>, k: int, v: V, r: Tree<V>): (res: (Tree<V>, bool))
    ensures InOrder(res.0) == InOrder(l) + [(k, v)] + InOrder(r)
  {
    if IsRed(r) then
      (Node(c, l, k, v, Paint(r, Black)), false)
    else if IsRed(l) then
      var t1 := RotateRight(Node(Red, Paint(l, Black), k, v, r));
      var inner := BalRightBlack(t1.right.color, t1.right.left, t1.right.key, t1.right.value, t1.right.right);
      (t1.(right := if inner.1 then Paint(inner.0, Black) else inner.0), false)
    else
      BalRightBlack(c, l, k, v, r)
  }

  /** Mirror cases 2-4: the sibling `s` is the left child, black or absent. */
  function BalRightBlack<V>(c: Color, s: Tree<V>, k: int, v: V, r: Tree<V>): (res: (Tree<V>, bool))
    ensures InOrder(res.0) == InOrder(s) + [(k, v)] + InOrder(r)
  {
    if s.Leaf? then
      (Node(c, s, k, v, r), true)
    else if !IsRed(s.left) && !IsRed(s.right) then
      (Node(c, Paint(s, Red), k, v, r), true)
    else
      // case 3 mirrored: far (left) child black; rotate LEFT at the sibling
      var s' := if IsRed(s.left) then s
                else RotateLeft(Node(Red, s.left, s.key, s.value, Paint(s.right, Black)));
      (RotateRight(Node(Black, Node(c, Paint(s'.left, Black), s'.key, s'.value, s'.right), k, v, r)), false)
  }

  // ---------------------------------------------------------------------------
  // Physical removal

  /** Cuts out the leftmost node (the successor's own removal, lines 295-310):
      its right child, if any, takes its place. */
  function DelMin<V>(t: Tree<V>): (res: (Tree<V>, bool))
    requires t.Node?
    ensures InOrder(t) == [Leftmost(t)] + InOrder(res.0)
  {
    if t.left.Leaf? then (t.right, t.color == Black)
    else
      var (l', short) := DelMin(t.left);
      if short then BalLeft(t.color, l', t.key, t.value, t.right)
      else (Node(t.color, l', t.key, t.value, t.right), false)
  }

  /** Removes the node holding `k`, if any, from a subtree. */
  function Del<V>(t: Tree<V>, k: int): (res: (Tree<V>, bool))
  {
    match t
    case Leaf => (Leaf, false)
    case Node(c, l, key, val, r) =>
      if k < key then
        var (l', short) := Del(l, k);
        if short then BalLeft(c, l', key, val, r) else (Node(c, l', key, val, r), false)
      else if key < k then
        var (r', short) := Del(r, k);
        if short then BalRight(c, l, key, val, r') else (Node(c, l, key, val, r'), false)
      else if l.Leaf? then
        // no left child: splice the right child (or nothing) into the slot (lines 276-289)
        (r, c == Black)
      else if r.Leaf? then
        (l, c == Black)
      else
        // two children: the successor's entry replaces this one and the successor is cut out
        var succ := Leftmost(r);
        var (r', short) := DelMin(r);
        if short then BalRight(c, l, succ.0, succ.1, r') else (Node(c, l, succ.0, succ.1, r'), false)
  }

  /** `remove` on a whole tree: absent keys leave it untouched, and a root
      that ends the fixup is painted black (line 371). */
  function Remove<V>(t: Tree<V>, k: int): (r: Tree<V>)
    requires Valid(t)
    ensures Valid(r)
    ensures Entries(r) == Without(Entries(t), k)
    ensures Keys(r) == Keys(t) - {k}
    ensures Count(r) == if k in Keys(t) then Count(t) - 1 else Count(t)
    ensures k !in Keys(t) ==> r == t
  {
    if !RBLocate.Has(t, k) then
      WithoutAbsent(t, k);
      t
    else
      DelContents(t, k);
      DelColours(t, k);
      var (t', short) := Del(t, k);
      if short then Paint(t', Black) else t'
  }

  // ---------------------------------------------------------------------------
  // Contents

  lemma {:induction false} DelMinContents<V>(t: Tree<V>)
    requires t.Node? && BST(t)
    ensures BST(DelMin(t).0)
    ensures Entries(t) == {Leftmost(t)} + Entries(DelMin(t).0)
    ensures Keys(t) == {Leftmost(t).0} + Keys(DelMin(t).0)
    ensures Leftmost(t).0 !in Keys(DelMin(t).0)
    ensures Count(t) == Count(DelMin(t).0) + 1
  {
    var m := Leftmost(t);
    var rest := DelMin(t).0;
    var tail := Node(Black, Leaf, m.0, m.1, rest);
    assert InOrder(tail) == [m] + InOrder(rest);
    SameInOrder(t, tail);
  }

  lemma {:induction false} DelContents<V>(t: Tree<V>, k: int)
    requires BST(t)
    ensures BST(Del(t, k).0)
    ensures Entries(Del(t, k).0) == Without(Entries(t), k)
    ensures Keys(Del(t, k).0) == Keys(t) - {k}
    ensures Count(Del(t, k).0) == if k in Keys(t) then Count(t) - 1 else Count(t)
  {
    match t
    case Leaf =>
    case Node(c, l, key, val, r) =>
      if k < key {
        DelContents(l, k);
        DelLeftContents(c, l, key, val, r, k);
      } else if key < k {
        DelContents(r, k);
        DelRightContents(c, l, key, val, r, k);
      } else {
        DelHereContents(c, l, key, val, r);
      }
  }

  /** Removing keys from one side of a search tree keeps it ordered. */
  lemma DelLeftOrder<V>(c: Color, l: Tree<V>, key: int, val: V, r: Tree<V>, l': Tree<V>)
    requires BST(Node(c, l, key, val, r)) && BST(l') && Keys(l') <= Keys(l)
    ensures BST(Node(c, l', key, val, r))
  {
  }

  lemma DelRightOrder<V>(c: Color, l: Tree<V>, key: int, val: V, r: Tree<V>, r': Tree<V>)
    requires BST(Node(c, l, key, val, r)) && BST(r') && Keys(r') <= Keys(r)
    ensures BST(Node(c, l, key, val, r'))
  {
  }

  lemma DelLeftContents<V>(c: Color, l: Tree<V>, key: int, val: V, r: Tree<V>, k: int)
    requires BST(Node(c, l, key, val, r)) && k < key
    requires BST(Del(l, k).0)
    requires Entries(Del(l, k).0) == Without(Entries(l), k)
    requires Keys(Del(l, k).0) == Keys(l) - {k}
    requires Count(Del(l, k).0) == if k in Keys(l) then Count(l) - 1 else Count(l)
    ensures var t := Node(c, l, key, val, r);
      && BST(Del(t, k).0)
      && Entries(Del(t, k).0) == Without(Entries(t), k)
      && Keys(Del(t, k).0) == Keys(t) - {k}
      && Count(Del(t, k).0) == if k in Keys(t) then Count(t) - 1 else Count(t)
  {
    var t := Node(c, l, key, val, r);
    var l' := Del(l, k).0;
    DelLeftRebuilt(c, l, key, val, r, k, l');
    assert InOrder(Del(t, k).0) == InOrder(Node(c, l', key, val, r)) by {
      assert Del(t, k).0 == if Del(l, k).1 then BalLeft(c, l', key, val, r).0 else Node(c, l', key, val, r);
    }
    SameInOrder(Del(t, k).0, Node(c, l', key, val, r));
  }

  /** The node rebuilt around the left subtree with `k` removed holds the
      node's entries without `k`. */
  lemma DelLeftRebuilt<V>(c: Color, l: Tree<V>, key: int, val: V, r: Tree<V>, k: int, l': Tree<V>)
    requires BST(Node(c, l, key, val, r)) && k < key
    requires BST(l')
    requires Entries(l') == Without(Entries(l), k)
    requires Keys(l') == Keys(l) - {k}
    requires Count(l') == if k in Keys(l) then Count(l) - 1 else Count(l)
    ensures var t := Node(c, l, key, val, r);
      && BST(Node(c, l', key, val, r))
      && Entries(Node(c, l', key, val, r)) == Without(Entries(t), k)
      && Keys(Node(c, l', key, val, r)) == Keys(t) - {k}
      && Count(Node(c, l', key, val, r)) == if k in Keys(t) then Count(t) - 1 else Count(t)
  {
    var t := Node(c, l, key, val, r);
    assert BST(Node(c, l', key, val, r)) by {
      DelLeftOrder(c, l, key, val, r, l');
    }
    assert Entries(Node(c, l', key, val, r)) == Without(Entries(t), k) by {
      DelLeftEntries(c, l, key, val, r, k);
    }
    assert k in Keys(t) <==> k in Keys(l) by { KeysOfEntries(r); }
  }


  lemma DelRightContents<V>(c: Color, l: Tree<V>, key: int, val: V, r: Tree<V>, k: int)
    requires BST(Node(c, l, key, val, r)) && key < k
    requires BST(Del(r, k).0)
    requires Entries(Del(r, k).0) == Without(Entries(r), k)
    requires Keys(Del(r, k).0) == Keys(r) - {k}
    requires Count(Del(r, k).0) == if k in Keys(r) then Count(r) - 1 else Count(r)
    ensures var t := Node(c, l, key, val, r);
      && BST(Del(t, k).0)
      && Entries(Del(t, k).0) == Without(Entries(t), k)
      && Keys(Del(t, k).0) == Keys(t) - {k}
      && Count(Del(t, k).0) == if k in Keys(t) then Count(t) - 1 else Count(t)
  {
    var t := Node(c, l, key, val, r);
    var r' := Del(r, k).0;
    DelRightRebuilt(c, l, key, val, r, k, r');
    assert InOrder(Del(t, k).0) == InOrder(Node(c, l, key, val, r')) by {
      assert Del(t, k).0 == if Del(r, k).1 then BalRight(c, l, key, val, r').0 else Node(c, l, key, val, r');
    }
    SameInOrder(Del(t, k).0, Node(c, l, key, val, r'));
  }

  /** The node rebuilt around the right subtree with `k` removed holds the
      node's entries without `k`. */
  lemma DelRightRebuilt<V>(c: Color, l: Tree<V>, key: int, val: V, r: Tree<V>, k: int, r': Tree<V>)
    requires BST(Node(c, l, key, val, r)) && key < k
    requires BST(r')
    requires Entries(r') == Without(Entries(r), k)
    requires Keys(r') == Keys(r) - {k}
    requires Count(r') == if k in Keys(r) then Count(r) - 1 else Count(r)
    ensures var t := Node(c, l, key, val, r);
      && BST(Node(c, l, key, val, r'))
      && Entries(Node(c, l, key, val, r')) == Without(Entries(t), k)
      && Keys(Node(c, l, key, val, r')) == Keys(t) - {k}
      && Count(Node(c, l, key, val, r')) == if k in Keys(t) then Count(t) - 1 else Count(t)
  {
    var t := Node(c, l, key, val, r);
    assert BST(Node(c, l, key, val, r')) by {
      DelRightOrder(c, l, key, val, r, r');
    }
    assert Entries(Node(c, l, key, val, r')) == Without(Entries(t), k) by {
      DelRightEntries(c, l, key, val, r, k);
    }
    assert k in Keys(t) <==> k in Keys(r) by { KeysOfEntries(l); }
  }


  lemma DelHereContents<V>(c: Color, l: Tree<V>, key: int, val: V, r: Tree<V>)
    requires BST(Node(c, l, key, val, r))
    ensures var t := Node(c, l, key, val, r);
      && BST(Del(t, key).0)
      && Entries(Del(t, key).0) == Without(Entries(t), key)
      && Keys(Del(t, key).0) == Keys(t) - {key}
      && Count(Del(t, key).0) == Count(t) - 1
  {
    var t := Node(c, l, key, val, r);
    DelHereEntries(c, l, key, val, r);
    assert key !in Keys(l) && key !in Keys(r);
    if l.Leaf? {
      assert Del(t, key).0 == r;
      assert InOrder(t) == [(key, val)] + InOrder(r);
      InOrderCount(t);
      InOrderCount(r);
    } else if r.Leaf? {
      assert Del(t, key).0 == l;
      assert InOrder(t) == InOrder(l) + [(key, val)];
      InOrderCount(t);
      InOrderCount(l);
    } else {
      var succ := Leftmost(r);
      DelMinContents(r);
      var r' := DelMin(r).0;
      SameInOrder(Del(t, key).0, Node(c, l, succ.0, succ.1, r'));
      assert succ.0 in Keys(r) by { KeysOfEntries(r); }
      assert BST(Node(c, l, succ.0, succ.1, r')) by {
        KeysOfEntries(r);
        assert forall x :: x in Keys(r') ==> x in Keys(r) && x != succ.0;
      }
    }
  }

  /** Removing an absent key changes no entry. */
  lemma WithoutAbsent<V>(t: Tree<V>, k: int)
    requires k !in Keys(t)
    ensures Without(Entries(t), k) == Entries(t)
  {
    KeysOfEntries(t);
  }

  lemma DelLeftEntries<V>(c: Color, l: Tree<V>, key: int, val: V, r: Tree<V>, k: int)
    requires BST(Node(c, l, key, val, r)) && k < key
    ensures Without(Entries(Node(c, l, key, val, r)), k) == Without(Entries(l), k) + {(key, val)} + Entries(r)
  {
    KeysOfEntries(r);
    forall e | e in Entries(r) ensures e.0 != k {
      assert e.0 in Keys(r);
    }
  }

  lemma DelRightEntries<V>(c: Color, l: Tree<V>, key: int, val: V, r: Tree<V>, k: int)
    requires BST(Node(c, l, key, val, r)) && key < k
    ensures Without(Entries(Node(c, l, key, val, r)), k) == Entries(l) + {(key, val)} + Without(Entries(r), k)
  {
    KeysOfEntries(l);
    forall e | e in Entries(l) ensures e.0 != k {
      assert e.0 in Keys(l);
    }
  }

  lemma DelHereEntries<V>(c: Color, l: Tree<V>, key: int, val: V, r: Tree<V>)
    requires BST(Node(c, l, key, val, r))
    ensures Without(Entries(Node(c, l, key, val, r)), key) == Entries(l) + Entries(r)
  {
    KeysOfEntries(l);
    KeysOfEntries(r);
    forall e | e in Entries(l) + Entries(r) ensures e.0 != key {
      if e in Entries(l) {
        assert e.0 in Keys(l);
      } else {
        assert e.0 in Keys(r);
      }
    }
  }

  // ---------------------------------------------------------------------------
  // Colours

  /** What a removal below leaves behind: a balanced subtree whose black height
      dropped by one exactly when it is short; when not short it has no
      red-red edge and its root turned red only if it was red before; when
      short, painting its root black removes every red-red edge. */
  ghost predicate Repaired<V>(res: (Tree<V>, bool), h: nat, wasRed: bool)
  {
    && Balanced(res.0)
    && BlackHeight(res.0) + (if res.1 then 1 else 0) == h
    && (!res.1 ==> NoRedRed(res.0) && (IsRed(res.0) ==> wasRed))
    && (res.1 ==> NoRedRed(Paint(res.0, Black)))
  }

  /** Blackening a red root adds one to the black height. */
  lemma PaintRedBlack<V>(t: Tree<V>)
    requires IsRed(t) && Balanced(t) && NoRedRed(t)
    ensures Balanced(Paint(t, Black)) && NoRedRed(Paint(t, Black)) && !IsRed(Paint(t, Black))
    ensures BlackHeight(Paint(t, Black)) == BlackHeight(t) + 1
  {
  }

  /** A black node over two subtrees of one black height. */
  lemma BlackNode<V>(a: Tree<V>, k: int, v: V, b: Tree<V>)
    requires Balanced(a) && Balanced(b) && BlackHeight(a) == BlackHeight(b) && NoRedRed(a) && NoRedRed(b)
    ensures Balanced(Node(Black, a, k, v, b)) && NoRedRed(Node(Black, a, k, v, b))
    ensures BlackHeight(Node(Black, a, k, v, b)) == BlackHeight(a) + 1
  {
  }

  /** The children of a black red-black node: red-black trees one black
      level lower. */
  lemma BlackChildren<V>(s: Tree<V>)
    requires s.Node? && Balanced(s) && NoRedRed(s) && !IsRed(s)
    ensures Balanced(s.left) && Balanced(s.right) && NoRedRed(s.left) && NoRedRed(s.right)
    ensures BlackHeight(s.left) + 1 == BlackHeight(s) && BlackHeight(s.right) + 1 == BlackHeight(s)
  {
  }

  /** Two black-rooted red-black subtrees of one black height joined under
      a node of any colour. */
  lemma JoinBlack<V>(c: Color, a: Tree<V>, k: int, v: V, b: Tree<V>)
    requires Balanced(a) && Balanced(b) && BlackHeight(a) == BlackHeight(b)
    requires NoRedRed(a) && NoRedRed(b) && !IsRed(a) && !IsRed(b)
    ensures Repaired((Node(c, a, k, v, b), false), BlackHeight(a) + (if c == Black then 1 else 0), c == Red)
  {
  }

  /** Case 3: rotating a sibling whose near child alone is red yields a
      sibling whose far child is red, at the same black height. */
  lemma LeftCase3<V>(s: Tree<V>)
    requires s.Node? && Balanced(s) && NoRedRed(s) && !IsRed(s)
    requires IsRed(s.left) && !IsRed(s.right)
    ensures var s' := RotateRight(Node(Red, Paint(s.left, Black), s.key, s.value, s.right));
      Balanced(s') && NoRedRed(s') && !IsRed(s') && IsRed(s'.right) && BlackHeight(s') == BlackHeight(s)
  {
  }

  /** Case 4: recolour and rotate at the parent; the short side regains its black. */
  lemma LeftCase4<V>(c: Color, l: Tree<V>, k: int, v: V, s: Tree<V>)
    requires Balanced(l) && NoRedRed(l) && !IsRed(l)
    requires s.Node? && Balanced(s) && NoRedRed(s) && !IsRed(s) && IsRed(s.right)
    requires BlackHeight(l) + 1 == BlackHeight(s)
    ensures var res := RotateLeft(Node(Black, l, k, v, Node(c, s.left, s.key, s.value, Paint(s.right, Black))));
      Repaired((res, false), BlackHeight(s) + (if c == Black then 1 else 0), c == Red)
  {
    var a, b := Node(Black, l, k, v, s.left), Paint(s.right, Black);
    BlackChildren(s);
    BlackNode(l, k, v, s.left);
    PaintRedBlack(s.right);
    assert BlackHeight(a) == BlackHeight(s) == BlackHeight(b);
    JoinBlack(c, a, s.key, s.value, b);
    assert RotateLeft(Node(Black, l, k, v, Node(c, s.left, s.key, s.value, b))) == Node(c, a, s.key, s.value, b);
  }


  lemma BalLeftBlackColours<V>(c: Color, l: Tree<V>, k: int, v: V, s: Tree<V>)
    requires Balanced(l) && Balanced(s) && BlackHeight(l) + 1 == BlackHeight(s)
    requires NoRedRed(l) && !IsRed(l)
    requires NoRedRed(s) && !IsRed(s)
    ensures Repaired(BalLeftBlack(c, l, k, v, s), BlackHeight(s) + (if c == Black then 1 else 0), c == Red)
  {
    if s.Node? && (IsRed(s.left) || IsRed(s.right)) {
      if IsRed(s.right) {
        LeftCase4(c, l, k, v, s);
      } else {
        LeftCase3(s);
        LeftCase4(c, l, k, v, RotateRight(Node(Red, Paint(s.left, Black), s.key, s.value, s.right)));
      }
    }
  }

  lemma RightCase3<V>(s: Tree<V>)
    requires s.Node? && Balanced(s) && NoRedRed(s) && !IsRed(s)
    requires IsRed(s.right) && !IsRed(s.left)
    ensures var s' := RotateLeft(Node(Red, s.left, s.key, s.value, Paint(s.right, Black)));
      Balanced(s') && NoRedRed(s') && !IsRed(s') && IsRed(s'.left) && BlackHeight(s') == BlackHeight(s)
  {
  }

  lemma RightCase4<V>(c: Color, s: Tree<V>, k: int, v: V, r: Tree<V>)
    requires Balanced(r) && NoRedRed(r) && !IsRed(r)
    requires s.Node? && Balanced(s) && NoRedRed(s) && !IsRed(s) && IsRed(s.left)
    requires BlackHeight(r) + 1 == BlackHeight(s)
    ensures var res := RotateRight(Node(Black, Node(c, Paint(s.left, Black), s.key, s.value, s.right), k, v, r));
      Repaired((res, false), BlackHeight(s) + (if c == Black then 1 else 0), c == Red)
  {
    var a, b := Paint(s.left, Black), Node(Black, s.right, k, v, r);
    BlackChildren(s);
    PaintRedBlack(s.left);
    BlackNode(s.right, k, v, r);
    assert BlackHeight(a) == BlackHeight(s) == BlackHeight(b);
    JoinBlack(c, a, s.key, s.value, b);
    assert RotateRight(Node(Black, Node(c, a, s.key, s.value, s.right), k, v, r)) == Node(c, a, s.key, s.value, b);
  }


  lemma BalRightBlackColours<V>(c: Color, s: Tree<V>, k: int, v: V, r: Tree<V>)
    requires Balanced(r) && Balanced(s) && BlackHeight(r) + 1 == BlackHeight(s)
    requires NoRedRed(r) && !IsRed(r)
    requires NoRedRed(s) && !IsRed(s)
    ensures Repaired(BalRightBlack(c, s, k, v, r), BlackHeight(s) + (if c == Black then 1 else 0), c == Red)
  {
    if s.Node? && (IsRed(s.left) || IsRed(s.right)) {
      if IsRed(s.left) {
        RightCase4(c, s, k, v, r);
      } else {
        RightCase3(s);
        RightCase4(c, RotateLeft(Node(Red, s.left, s.key, s.value, Paint(s.right, Black))), k, v, r);
      }
    }
  }

  lemma BalLeftColours<V>(c: Color, l: Tree<V>, k: int, v: V, r: Tree<V>)
    requires Balanced(l) && Balanced(r) && BlackHeight(l) + 1 == BlackHeight(r)
    requires NoRedRed(Paint(l, Black)) && NoRedRed(r)
    requires c == Red ==> !IsRed(r)
    ensures Repaired(BalLeft(c, l, k, v, r), BlackHeight(r) + (if c == Black then 1 else 0), c == Red)
  {
    if !IsRed(l) && IsRed(r) {
      BalLeftBlackColours(Red, l, k, v, r.left);
    } else if !IsRed(l) {
      BalLeftBlackColours(c, l, k, v, r);
    }
  }

  lemma BalRightColours<V>(c: Color, l: Tree<V>, k: int, v: V, r: Tree<V>)
    requires Balanced(l) && Balanced(r) && BlackHeight(r) + 1 == BlackHeight(l)
    requires NoRedRed(Paint(r, Black)) && NoRedRed(l)
    requires c == Red ==> !IsRed(l)
    ensures Repaired(BalRight(c, l, k, v, r), BlackHeight(l) + (if c == Black then 1 else 0), c == Red)
  {
    if !IsRed(r) && IsRed(l) {
      BalRightBlackColours(Red, l.right, k, v, r);
    } else if !IsRed(r) {
      BalRightBlackColours(c, l, k, v, r);
    }
  }

  lemma {:induction false} DelMinColours<V>(t: Tree<V>)
    requires t.Node? && NoRedRed(t) && Balanced(t)
    ensures Repaired(DelMin(t), BlackHeight(t), IsRed(t))
  {
    if t.left.Node? {
      DelMinColours(t.left);
      var (l', short) := DelMin(t.left);
      if short {
        BalLeftColours(t.color, l', t.key, t.value, t.right);
      }
    }
  }

  lemma {:induction false} DelColours<V>(t: Tree<V>, k: int)
    requires NoRedRed(t) && Balanced(t)
    ensures Repaired(Del(t, k), BlackHeight(t), IsRed(t))
  {
    match t
    case Leaf =>
    case Node(c, l, key, val, r) =>
      if k < key {
        DelColours(l, k);
        var (l', short) := Del(l, k);
        if short {
          BalLeftColours(c, l', key, val, r);
        }
      } else if key < k {
        DelColours(r, k);
        var (r', short) := Del(r, k);
        if short {
          BalRightColours(c, l, key, val, r');
        }
      } else if l.Node? && r.Node? {
        DelMinColours(r);
        var succ := Leftmost(r);
        var (r', short) := DelMin(r);
        if short {
          BalRightColours(c, l, succ.0, succ.1, r');
        }
      }
  }
}
