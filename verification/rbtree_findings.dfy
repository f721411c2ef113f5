/** The delete fixup of rbtree/rbtree.h:313-372 as it is written, next to the
    corrected steps `RBRemove.BalLeft` / `RBRemove.BalRight`.

    A dereference of a null child is a crash, modelled as `None`. Everything
    outside the fixup steps (locating the node, splicing it out, the
    successor) is taken from the corrected model, so a `None` below is caused
    by the fixup lines alone. */
module RBFindings {
  import opened Wrappers
  import opened RBNode
  import RBRemove

  /** Cases 2-4 of the left fixup as written (lines 326-341). The test on
      line 331 reads `sibling->right->color` without checking that the far
      child exists, and an absent sibling is dereferenced as well. */
  function BalLeftBlackAsWritten<V>(c: Color, l: Tree<V>, k: int, v: V, s: Tree<V>): (res: Option<(Tree<V>, bool)>)
  {
    if s.Node? && !IsRed(s.left) && !IsRed(s.right) then
      Some((Node(c, l, k, v, Paint(s, Red)), true))
    else if s.Leaf? || s.right.Leaf? then
      None
    else
      var s' := if s.right.color == Red then s
                else RotateRight(Node(Red, Paint(s.left, Black), s.key, s.value, s.right));
      Some((RotateLeft(Node(Black, l, k, v, Node(c, s'.left, s'.key, s'.value, Paint(s'.right, Black)))), false))
  }

  /** One iteration of the left fixup as written (lines 319-342). */
  function BalLeftAsWritten<V>(c: Color, l: Tree<V>, k: int, v: V, r: Tree<V>): (res: Option<(Tree<V>, bool)>)
    ensures res.Some? ==> res.value == RBRemove.BalLeft(c, l, k, v, r)
  {
    if IsRed(l) then
      Some((Node(c, Paint(l, Black), k, v, r), false))
    else if IsRed(r) then
      var t1 := RotateLeft(Node(Red, l, k, v, Paint(r, Black)));
      var inner := BalLeftBlackAsWritten(t1.left.color, t1.left.left, t1.left.key, t1.left.value, t1.left.right);
      if inner.None? then None
      else Some((t1.(left := if inner.value.1 then Paint(inner.value.0, Black) else inner.value.0), false))
    else
      BalLeftBlackAsWritten(c, l, k, v, r)
  }

  /** Cases 2-4 of the right fixup as written (lines 352-366). Line 357
      reads `sibling->left->color` without checking that the far child
      exists; when it is black, line 360 rotates the sibling RIGHT, where
      the mirror of line 335 rotates it left, and line 365 then reads the
      left child of the new sibling, which that rotation may leave absent. */
  function BalRightBlackAsWritten<V>(c: Color, s: Tree<V>, k: int, v: V, r: Tree<V>): (res: Option<(Tree<V>, bool)>)
    ensures res.Some? ==> InOrder(res.value.0) == InOrder(s) + [(k, v)] + InOrder(r)
  {
    if s.Node? && !IsRed(s.left) && !IsRed(s.right) then
      Some((Node(c, Paint(s, Red), k, v, r), true))
    else if s.Leaf? || s.left.Leaf? then
      None
    else
      var s' := if s.left.color == Red then s
                else RotateRight(Node(Red, s.left, s.key, s.value, Paint(s.right, Black)));
      assert InOrder(s') == InOrder(s) by {
        assert InOrder(Paint(s.right, Black)) == InOrder(s.right);
      }
      assert InOrder(Paint(s'.left, Black)) == InOrder(s'.left);
      if s'.left.Leaf? then None
      else Some((RotateRight(Node(Black, Node(c, Paint(s'.left, Black), s'.key, s'.value, s'.right), k, v, r)), false))
  }

  /** One iteration of the right fixup as written (lines 343-367). */
  function BalRightAsWritten<V>(c: Color, l: Tree<V>, k: int, v: V, r: Tree<V>): (res: Option<(Tree<V>, bool)>)
    ensures res.Some? ==> InOrder(res.value.0) == InOrder(l) + [(k, v)] + InOrder(r)
    ensures IsRed(r) ==> res == Some(RBRemove.BalRight(c, l, k, v, r))
    ensures l.Node? && !IsRed(l) && !IsRed(l.left) && !IsRed(l.right) ==> res == Some(RBRemove.BalRight(c, l, k, v, r))
  {
    if IsRed(r) then
      Some((Node(c, l, k, v, Paint(r, Black)), false))
    else if IsRed(l) then
      var t1 := RotateRight(Node(Red, Paint(l, Black), k, v, r));
      var inner := BalRightBlackAsWritten(t1.right.color, t1.right.left, t1.right.key, t1.right.value, t1.right.right);
      if inner.None? then None
      else Some((t1.(right := if inner.value.1 then Paint(inner.value.0, Black) else inner.value.0), false))
    else
      BalRightBlackAsWritten(c, l, k, v, r)
  }

  /** Removal driving the as-written fixup steps. */
  function DelAsWritten<V>(t: Tree<V>, k: int): (res: Option<(Tree<V>, bool)>)
    ensures res.Some? ==> InOrder(res.value.0) == InOrder(RBRemove.Del(t, k).0)
  {
    match t
    case Leaf => Some((Leaf, false))
    case Node(c, l, key, val, r) =>
      if k < key then
        match DelAsWritten(l, k)
        case None => None
        case Some((l', short)) =>
          if short then BalLeftAsWritten(c, l', key, val, r) else Some((Node(c, l', key, val, r), false))
      else if key < k then
        match DelAsWritten(r, k)
        case None => None
        case Some((r', short)) =>
          if short then BalRightAsWritten(c, l, key, val, r') else Some((Node(c, l, key, val, r'), false))
      else if l.Leaf? then Some((r, c == Black))
      else if r.Leaf? then Some((l, c == Black))
      else
        var succ := RBRemove.Leftmost(r);
        match DelMinAsWritten(r)
        case None => None
        case Some((r', short)) =>
          if short then BalRightAsWritten(c, l, succ.0, succ.1, r') else Some((Node(c, l, succ.0, succ.1, r'), false))
  }

  function DelMinAsWritten<V>(t: Tree<V>): (res: Option<(Tree<V>, bool)>)
    requires t.Node?
    ensures res.Some? ==> res.value == RBRemove.DelMin(t)
  {
    if t.left.Leaf? then Some((t.right, t.color == Black))
    else
      match DelMinAsWritten(t.left)
      case None => None
      case Some((l', short)) =>
        if short then BalLeftAsWritten(t.color, l', t.key, t.value, t.right)
        else Some((Node(t.color, l', t.key, t.value, t.right), false))
  }

  /** `remove` with the as-written fixup; `None` is a crash. */
  function RemoveAsWritten<V>(t: Tree<V>, k: int): (r: Option<Tree<V>>)
    ensures r.Some? ==> InOrder(r.value) == InOrder(RBRemove.Del(t, k).0)
  {
    match DelAsWritten(t, k)
    case None => None
    case Some((t', short)) => Some(if short then Paint(t', Black) else t')
  }

  // ---------------------------------------------------------------------------
  // Counterexamples

  function B(l: Tree<int>, k: int, r: Tree<int>): Tree<int> { Node(Black, l, k, 0, r) }
  function R(l: Tree<int>, k: int, r: Tree<int>): Tree<int> { Node(Red, l, k, 0, r) }

  /** Line 357: black 3 over black 1 (with red right child 2) and black 4.
      Removing 4 leaves the left sibling 1 with a red far child and no near
      child, and the test on line 357 dereferences the absent left child of 1. */
  lemma NullNearChildOnRight()
    ensures var t := B(B(Leaf, 1, R(Leaf, 2, Leaf)), 3, B(Leaf, 4, Leaf));
      && Valid(t)
      && RemoveAsWritten(t, 4).None?
      && Valid(RBRemove.Remove(t, 4))
      && Keys(RBRemove.Remove(t, 4)) == {1, 2, 3}
  {
    var t := B(B(Leaf, 1, R(Leaf, 2, Leaf)), 3, B(Leaf, 4, Leaf));
    assert BST(t);
    assert DelAsWritten(B(Leaf, 4, Leaf), 4) == Some((Leaf, true));
    assert BalRightAsWritten(Black, B(Leaf, 1, R(Leaf, 2, Leaf)), 3, 0, Leaf).None?;
    assert Keys(t) == {1, 2, 3, 4};
  }

  /** Line 360: removing 11 from the valid tree below sends case 2 up to the
      root's right child, where the sibling 4 has a black near child 2 and a
      red far child 6. The as-written code rotates 4 right, which makes 2 the
      new sibling; 2 has no left child for line 365 to recolour. */
  lemma WrongRotationOnRight()
    ensures var t := B(B(B(Leaf, 2, Leaf), 4, R(B(Leaf, 5, Leaf), 6, B(Leaf, 7, Leaf))), 8, B(B(Leaf, 9, Leaf), 10, B(Leaf, 11, Leaf)));
      && Valid(t)
      && RemoveAsWritten(t, 11).None?
      && Valid(RBRemove.Remove(t, 11))
  {
    var s := B(B(Leaf, 2, Leaf), 4, R(B(Leaf, 5, Leaf), 6, B(Leaf, 7, Leaf)));
    var t := B(s, 8, B(B(Leaf, 9, Leaf), 10, B(Leaf, 11, Leaf)));
    assert BST(t);
    assert DelAsWritten(B(Leaf, 11, Leaf), 11) == Some((Leaf, true));
    assert DelAsWritten(B(B(Leaf, 9, Leaf), 10, B(Leaf, 11, Leaf)), 11) == Some((B(R(Leaf, 9, Leaf), 10, Leaf), true));
    assert BalRightAsWritten(Black, s, 8, 0, B(R(Leaf, 9, Leaf), 10, Leaf)).None?;
  }

  /** Line 331: a short left side whose black sibling 4 has only a red near
      child 3. The test on line 331 dereferences the absent far child; the
      corrected step rebalances to a tree of black height 2. A removal reaches
      this state only once `cur` is a real node and the side test at line 317
      is the intended one: removing 1 from black 2 over black 1 and black 4
      (with red left child 3). */
  lemma NullFarChildOnLeft()
    ensures var s := B(R(Leaf, 3, Leaf), 4, Leaf);
      && BalLeftAsWritten(Black, Leaf, 2, 0, s).None?
      && var res := RBRemove.BalLeft(Black, Leaf, 2, 0, s);
         !res.1 && Valid(res.0) && BlackHeight(res.0) == BlackHeight(s) + 1
  {
    var s := B(R(Leaf, 3, Leaf), 4, Leaf);
    assert RBRemove.BalLeft(Black, Leaf, 2, 0, s) == (B(B(Leaf, 2, Leaf), 3, B(Leaf, 4, Leaf)), false);
  }
}
