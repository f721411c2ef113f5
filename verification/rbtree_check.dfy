/** The debug-build invariant check of rbtree/rbtree.h:395-456.

    The source walks the tree with an explicit stack, carrying for each
    pending node the number of black nodes and of nodes on the path above it.
    At every null child it records that path's black count and length; at
    every node it checks that a red node has no red child and counts the node.
    The order in which the stack visits nodes does not change any of these
    facts, so `ScanFrom` performs the same walk recursively. */
module RBCheck {
  import opened RBNode

  // ---------------------------------------------------------------------------
  // Declarative path properties

  /** The black-node count of every root-to-null path. */
  ghost function PathBlackCounts<V>(t: Tree<V>): set<nat>
  {
    match t
    case Leaf => {0}
    case Node(c, l, _, _, r) =>
      var b := if c == Black then 1 else 0;
      set n | n in PathBlackCounts(l) + PathBlackCounts(r) :: n + b
  }

  /** Nodes on the shortest root-to-null path. */
  function MinDepth<V>(t: Tree<V>): nat
  {
    match t
    case Leaf => 0
    case Node(_, l, _, _, r) => 1 + Min(MinDepth(l), MinDepth(r))
  }

  /** Nodes on the longest root-to-null path. */
  function MaxDepth<V>(t: Tree<V>): nat
  {
    match t
    case Leaf => 0
    case Node(_, l, _, _, r) => 1 + Max(MaxDepth(l), MaxDepth(r))
  }

  function Min(a: nat, b: nat): nat { if a <= b then a else b }
  function Max(a: nat, b: nat): nat { if a <= b then b else a }

  lemma {:induction false} PathBlackCountsNonEmpty<V>(t: Tree<V>)
    ensures BlackHeight(t) in PathBlackCounts(t)
  {
    match t
    case Leaf =>
    case Node(c, l, _, _, r) =>
      PathBlackCountsNonEmpty(l);
      var b := if c == Black then 1 else 0;
      assert BlackHeight(l) + b in PathBlackCounts(t);
  }

  /** `Balanced` says exactly that all root-to-null paths carry the same
      number of black nodes. */
  lemma {:induction false} BalancedIffUniform<V>(t: Tree<V>)
    ensures Balanced(t) <==> PathBlackCounts(t) == {BlackHeight(t)}
  {
    match t
    case Leaf =>
    case Node(c, l, _, _, r) =>
      BalancedIffUniform(l);
      BalancedIffUniform(r);
      PathBlackCountsNonEmpty(l);
      PathBlackCountsNonEmpty(r);
      var b := if c == Black then 1 else 0;
      if PathBlackCounts(t) == {BlackHeight(t)} {
        forall n | n in PathBlackCounts(l) ensures n == BlackHeight(l) {
          assert n + b in PathBlackCounts(t);
        }
        forall n | n in PathBlackCounts(r) ensures n == BlackHeight(l) {
          assert n + b in PathBlackCounts(t);
        }
        assert BlackHeight(r) == BlackHeight(l);
      }
      if Balanced(t) {
        forall n | n in PathBlackCounts(t) ensures n == BlackHeight(t) {
          var m :| m in PathBlackCounts(l) + PathBlackCounts(r) && n == m + b;
        }
      }
  }

  /** In a subtree with no red-red edge and balanced black heights the
      shortest path has at least the black height and the longest at most
      twice that, plus one for a red root. */
  lemma {:induction false} DepthBounds<V>(t: Tree<V>)
    requires NoRedRed(t) && Balanced(t)
    ensures MinDepth(t) >= BlackHeight(t)
    ensures MaxDepth(t) <= 2 * BlackHeight(t) + (if IsRed(t) then 1 else 0)
  {
    match t
    case Leaf =>
    case Node(c, l, _, _, r) =>
      DepthBounds(l);
      DepthBounds(r);
  }

  /** The height bound the check asserts last (line 454): in a valid tree no
      path is more than twice as long as any other. */
  lemma HeightBalance<V>(t: Tree<V>)
    requires NoRedRed(t) && Balanced(t) && !IsRed(t)
    ensures 2 * MinDepth(t) >= MaxDepth(t)
  {
    DepthBounds(t);
  }

  // ---------------------------------------------------------------------------
  // The walk

  /** What the walk below one stack entry establishes: whether every check
      passed, the black count of its paths (of the leftmost one, which is
      the one the others are compared against), the shortest and longest
      path lengths, and the nodes counted. */
  datatype Scan = Scan(ok: bool, blacks: nat, minLen: nat, maxLen: nat, counted: nat)

  /** The walk from a stack entry (numBlack, pathLen, t). */
  function ScanFrom<V>(t: Tree<V>, numBlack: nat, pathLen: nat): Scan
  {
    match t
    case Leaf => Scan(true, numBlack, pathLen, pathLen, 0)
    case Node(c, l, _, _, r) =>
      var nb := if c == Black then numBlack + 1 else numBlack;
      var redOk := c == Black || (!IsRed(l) && !IsRed(r));
      var sl := ScanFrom(l, nb, pathLen + 1);
      var sr := ScanFrom(r, nb, pathLen + 1);
      Scan(redOk && sl.ok && sr.ok && sl.blacks == sr.blacks,
           sl.blacks, Min(sl.minLen, sr.minLen), Max(sl.maxLen, sr.maxLen),
           1 + sl.counted + sr.counted)
  }

  lemma {:induction false} ScanMeaning<V>(t: Tree<V>, numBlack: nat, pathLen: nat)
    ensures ScanFrom(t, numBlack, pathLen).ok <==> NoRedRed(t) && Balanced(t)
    ensures ScanFrom(t, numBlack, pathLen).blacks == numBlack + BlackHeight(t)
    ensures ScanFrom(t, numBlack, pathLen).minLen == pathLen + MinDepth(t)
    ensures ScanFrom(t, numBlack, pathLen).maxLen == pathLen + MaxDepth(t)
    ensures ScanFrom(t, numBlack, pathLen).counted == Count(t)
  {
    match t
    case Leaf =>
    case Node(c, l, _, _, r) =>
      var nb := if c == Black then numBlack + 1 else numBlack;
      ScanMeaning(l, nb, pathLen + 1);
      ScanMeaning(r, nb, pathLen + 1);
  }

  /** `checkInvariant` of a tree with root `root` and recorded size `size`:
      true when none of its assertions would fail. It holds exactly for a
      black (or absent) root, no red-red edge, equal black counts on all
      paths, and a recorded size equal to the number of nodes; key order
      is not checked by the source. */
  function CheckInvariant<V>(root: Tree<V>, size: nat): (ok: bool)
    ensures ok <==> !IsRed(root) && NoRedRed(root) && Balanced(root) && Count(root) == size
  {
    if size == 0 then root.Leaf?
    else
      && root.Node?
      && root.color == Black
      && var s := ScanFrom(root, 0, 0);
         ScanMeaning(root, 0, 0);
         && s.ok
         && (HeightBalance(root); s.minLen * 2 >= s.maxLen)
         && s.counted == size
  }
}
