# Red-black map, toy RSA arithmetic and 2-D prefix sums in Dafny

This project models three small libraries and proves what each of them
promises.

- **`RBTree<KeyT, ValT>`** (rbtree/rbtree.h) is an ordered map kept as a
  red-black tree. It offers `locate`, `has`, `get`, `insert` (a recolour and
  rotate fixup) and `remove` (an in-order successor swap followed by the
  black-deficit fixup). `checkInvariant` walks the tree and asserts the
  red-black rules.
  - The model is an immutable tree datatype with integer keys. A parent link
    is the enclosing node, so it is always consistent.
  - `insert` and `remove` are the recursive versions of the same
    bottom-up fixups.
  - The model proves that the tree behaves as a finite map whose in-order
    keys strictly ascend. It also proves that every public operation keeps
    the red-black invariants and the height balance that `checkInvariant`
    asserts.
- **rsa/rsa.py** is a teaching RSA implementation. The model covers:
  - extended Euclid, `gcd` and `modinv`;
  - Karatsuba-style `modmul` and square-and-multiply `modexp`;
  - the deterministic part of the Rabin-Miller test (the `2^t * u = x - 1`
    decomposition and one-base test);
  - `Message`, which packs a byte string into big-endian integers below the
    modulus.
- **`SummerImpl` / `SummerNaiveImpl`** (array-sum/Summer.cc) answer
  rectangle-sum queries over a 2-D array. The fast one builds an inclusive
  prefix-sum table and uses inclusion-exclusion. The naive one adds the cells
  one by one. The model proves that both return the true sum of every
  in-bounds rectangle.

## Modules

| file | module | contents |
|---|---|---|
| wrappers.dfy | `Wrappers` | `Option`, `Result` |
| rbtree_node.dfy | `RBNode` | the tree, its views (in-order sequence, entries, keys, count), the red-black predicates, the rotations |
| rbtree_locate.dfy | `RBLocate` | `locate`, `has`, `get` |
| rbtree_insert.dfy | `RBInsert` | insertion and its fixup |
| rbtree_remove.dfy | `RBRemove` | deletion, the successor and the four fixup cases on each side |
| rbtree_check.dfy | `RBCheck` | `checkInvariant` and the height-balance theorem |
| rbtree_map.dfy | `RBMap` | the public map: a root plus `mSize`, viewed as a Dafny `map` |
| rbtree_findings.dfy | `RBFindings` | the delete fixup as written, with counterexamples |
| rsa_arith.dfy | `RSAArith` | powers, bit operations, modular and divisibility facts |
| rsa_euclid.dfy | `RSAEuclid` | `_extended_euclidean`, `gcd`, `modinv` |
| rsa_modmul.dfy | `RSAModMul` | `modmul` |
| rsa_modexp.dfy | `RSAModExp` | `modexp` |
| rsa_prime.dfy | `RSAPrime` | the decomposition and the Rabin-Miller rounds of `isprime` |
| rsa_message.dfy | `RSAMessage` | `Message.Encode`, `Decode`, `Mapped`, `_base_from_modulo` |
| summer.dfy | `Summer` | both summers |

## Model

| member | source | states |
|---|---|---|
| RBNode.RotateLeft | rbtree/rbtree.h:82-96 | needs a right child; the result has a left child and the same in-order sequence of entries |
| RBNode.RotateRight | rbtree/rbtree.h:98-112 | needs a left child; the result has a right child and the same in-order sequence of entries |
| RBNode.RotationsInverse | rbtree/rbtree.h:82-112 | a right rotation undoes a left rotation and vice versa |
| RBNode.RotateLeftPreserves | rbtree/rbtree.h:82-96 | a left rotation keeps the stored entries and the node count, and keeps the search-tree order both ways |
| RBNode.RotateRightPreserves | rbtree/rbtree.h:98-112 | a right rotation keeps the stored entries and the node count, and keeps the search-tree order both ways |
| RBNode.BSTIffAscending | rbtree/rbtree.h:464-479 | the search-tree order holds exactly when the in-order keys strictly ascend |
| RBNode.EntriesFunctional | rbtree/rbtree.h:181-182 | in a search tree a key has at most one value |
| RBNode.SameInOrder | rbtree/rbtree.h:82-112 | two trees with the same in-order sequence have the same entries, keys and count, and one is ordered iff the other is |
| RBLocate.Locate | rbtree/rbtree.h:458-479 | a node is returned iff the key is stored, and it holds the key; an empty tree gives (null, null); the parent is null iff the tree is empty or the key is at the root; otherwise the parent lies on the search path for the key (the descent turns at each node towards the key's side), and its child toward the key is the returned node, or the empty slot where the key should go when it is absent |
| RBLocate.LocatePrevUnique | rbtree/rbtree.h:458-479 | the parent is unique: any node on the search path whose child toward the key is the key's node, or an empty slot, is exactly the parent `locate` returns, with that child as its second result |
| RBLocate.Has | rbtree/rbtree.h:123-133 | true iff the key is stored |
| RBLocate.Get | rbtree/rbtree.h:136-169 | fails with `KeyError` iff the key is absent; otherwise returns the value stored under it |
| RBInsert.Insert | rbtree/rbtree.h:173-253 | the result is a valid red-black tree with a black root; its entries are the old ones with the key's value set; the count grows by one iff the key is new |
| RBInsert.InsContents | rbtree/rbtree.h:178-201 | the descent keeps the search-tree order, replaces exactly the key's entry and counts one more node only for a new key |
| RBInsert.InsColours | rbtree/rbtree.h:203-248 | the fixup keeps every path's black count; below a black node it leaves no red-red edge, and below a red one at most one, at the top |
| RBInsert.InsExistingKeepsShape | rbtree/rbtree.h:180-182 | inserting a stored key changes no colour, key or link |
| RBMap.InsertExistingKeepsShape | rbtree/rbtree.h:180-182 | overwriting a stored key keeps the size and the tree's shape |
| RBRemove.Leftmost | rbtree/rbtree.h:380-393 | the leftmost entry is stored and, in a search tree, has the least key |
| RBRemove.SuccessorIsNextKey | rbtree/rbtree.h:290-298 | the successor used in the two-child case lies after the removed key |
| RBRemove.DelMin | rbtree/rbtree.h:294-311 | cutting out the successor leaves the in-order sequence minus its first entry |
| RBRemove.BalLeft | rbtree/rbtree.h:317-342 | the left-side fixup keeps the in-order sequence |
| RBRemove.BalRight | rbtree/rbtree.h:343-369 | the right-side fixup keeps the in-order sequence |
| RBRemove.BalLeftColours | rbtree/rbtree.h:317-342 | with the left subtree one black short, the fixup restores equal black counts and no red-red edge, or reports the subtree still short |
| RBRemove.BalRightColours | rbtree/rbtree.h:343-369 | the mirror image: the right subtree one black short is repaired or reported still short |
| RBRemove.DelContents | rbtree/rbtree.h:257-311 | deletion keeps the search-tree order, drops exactly the key's entry and counts one fewer node iff the key was stored |
| RBRemove.DelColours | rbtree/rbtree.h:313-372 | deletion keeps equal black counts and no red-red edge, with the subtree short of one black only if a black node was removed |
| RBRemove.Remove | rbtree/rbtree.h:257-377 | the result is a valid red-black tree; the key is absent; every other entry is kept; the count drops by one iff the key was stored; an absent key leaves the tree unchanged |
| RBCheck.CheckInvariant | rbtree/rbtree.h:395-456 | true iff the root is black, no red node has a red child, every path has the same black count and the node count equals the size |
| RBCheck.BalancedIffUniform | rbtree/rbtree.h:429-437 | equal black counts on the leftmost and all other paths is the same as one black count over all root-to-null paths |
| RBCheck.DepthBounds | rbtree/rbtree.h:454 | in a red-black subtree the shortest path has at least the black height and the longest at most twice that, plus one below a red root |
| RBCheck.HeightBalance | rbtree/rbtree.h:454 | with a black root the shortest path is at least half the longest |
| RBCheck.ScanMeaning | rbtree/rbtree.h:420-452 | the traversal succeeds iff there is no red-red edge and all black counts agree, and it reports the black count, the shortest and longest path lengths and the node count |
| RBMap.Empty | rbtree/rbtree.h:115-120 | the empty tree is valid, holds nothing and has size 0 |
| RBMap.Has | rbtree/rbtree.h:123-133 | true iff the key is in the map |
| RBMap.Get | rbtree/rbtree.h:136-169 | succeeds iff the key is in the map, with its value |
| RBMap.Insert | rbtree/rbtree.h:173-253 | keeps the invariants; the map becomes the old one with the key set to the value; the size grows by one iff the key was new |
| RBMap.Remove | rbtree/rbtree.h:257-377 | keeps the invariants; the map loses exactly the key; the size drops by one iff it was present; an absent key changes nothing |
| RBMap.CheckInvariant | rbtree/rbtree.h:395-456 | every map that keeps the invariants passes, and a size that disagrees with the node count fails |
| RBFindings.BalLeftAsWritten | rbtree/rbtree.h:317-342 | when the left fixup as written does not crash, it computes the corrected result |
| RBFindings.BalRightAsWritten | rbtree/rbtree.h:343-369 | the right fixup as written keeps the in-order sequence when it does not crash, and agrees with the corrected one when the sibling is red or has no red child |
| RBFindings.NullNearChildOnRight | rbtree/rbtree.h:357 | removing 4 from a small valid tree dereferences a null child, while the corrected removal gives a valid tree of 1, 2 and 3 |
| RBFindings.WrongRotationOnRight | rbtree/rbtree.h:360 | the wrong rotation makes a later step dereference a null child, while the corrected removal gives a valid tree |
| RBFindings.NullFarChildOnLeft | rbtree/rbtree.h:331 | on a fixup state whose sibling has only a red near child, the left step as written dereferences the sibling's null right child, where the corrected step gives a balanced tree; the state is reached only once lines 315 and 317 are repaired |
| RSAEuclid.ExtendedEuclidean | rsa/rsa.py:44-59 | returns `(x, y, g)` with `a*x + b*y == g`, where `g` divides both arguments |
| RSAEuclid.ExtendedEuclideanIsGcd | rsa/rsa.py:44-59 | the returned `g` is the greatest common divisor |
| RSAEuclid.ExtendedEuclideanSymmetric | rsa/rsa.py:48-58 | for `a != b`, swapping the arguments swaps the coefficients and keeps the divisor |
| RSAEuclid.Gcd | rsa/rsa.py:61-65 | the greatest common divisor of two naturals, 0 only for (0, 0) |
| RSAEuclid.GcdSymmetric | rsa/rsa.py:61-65 | the gcd does not depend on the argument order |
| RSAEuclid.ModInv | rsa/rsa.py:101-107 | `None` iff the gcd is not 1; otherwise a value below `n` whose product with `x` is 1 modulo `n` |
| RSAEuclid.ModInvComplete | rsa/rsa.py:101-107 | for `n > 1`, `None` exactly when no integer is an inverse of `x` modulo `n` |
| RSAEuclid.AsWrittenBreaksBezout | rsa/rsa.py:48-52 | for (0, 5) the source returns (1, 0, 5), which breaks `a*x + b*y == g`; the corrected version gives (0, 1, 5) |
| RSAEuclid.AsWrittenAgrees | rsa/rsa.py:44-59 | the source and the corrected version agree unless the first argument is 0 and the second is not |
| RSAModMul.ModMul | rsa/rsa.py:67-99 | equals `(x*y) % n` whatever split width is given |
| RSAModMul.RoundLog2 | rsa/rsa.py:80 | the rounded `log2(m)`, stated through `m*m` lying between `2^(2r-1)` and `2^(2r+1)` |
| RSAModMul.Karatsuba | rsa/rsa.py:70-97 | the three partial products, taken modulo `n` and recombined by shifts and adds, give `(x*y) % n` |
| RSAModExp.ModExp | rsa/rsa.py:109-118 | returns `x^y % n`, so `y = 0` gives `1 % n` and `n = 1` gives 0 |
| RSAModExp.ExponentStep | rsa/rsa.py:112-117 | one square-and-multiply step turns `x` to the power of the top bits of `y` into `x` to the power of one more bit |
| RSAPrime.Decompose | rsa/rsa.py:129-135 | for `x >= 2` it finds an odd `u` and a `t` with `2^t * u == x - 1` |
| RSAPrime.PrimeTestOneBase | rsa/rsa.py:137-155 | a base that passes satisfies Fermat's condition `a^(x-1) % x == 1` |
| RSAPrime.IsPrime | rsa/rsa.py:120-162 | 0 and 1 are not prime, and a number declared prime passed Fermat's condition for every base tried |
| RSAMessage.BaseFromModulo | rsa/rsa.py:234-236 | the smallest multiple of 8 bits whose range reaches the modulus |
| RSAMessage.BytesPerItem | rsa/rsa.py:188-191 | at least one byte for a modulus above 256, and `256^bpi` stays below the modulus |
| RSAMessage.BytesRoundTrip | rsa/rsa.py:198-199 | reading bytes as a big-endian number and writing it back as that many bytes gives the same bytes |
| RSAMessage.PadShift | rsa/rsa.py:200-201 | the left shift of a short last chunk equals appending zero bytes |
| RSAMessage.Encode | rsa/rsa.py:184-205 | exactly `ceil(len/bpi)` items, each in `[0, 256^bpi)` and below the modulus, with an overflow in `1..bpi` |
| RSAMessage.Decode | rsa/rsa.py:207-226 | fails with `DecodeRangeError` iff some item is outside `[0, 256^bpi)`; otherwise yields at most `bpi` bytes per item |
| RSAMessage.EncodeDecode | rsa/rsa.py:184-226 | decoding an encoding returns the original bytes, with the padding dropped by `overflow` |
| RSAMessage.Mapped | rsa/rsa.py:228-232 | keeps the modulus, the overflow and the item count, and applies the function to each item |
| RSAMessage.MappedInverse | rsa/rsa.py:228-232 | mapping with a function and then with its inverse on those items restores the message |
| Summer.InclusionExclusion | array-sum/Summer.cc:39-54 | any rectangle's sum is the corner prefix sum minus the two strip prefix sums plus their overlap |
| Summer.Build | array-sum/Summer.cc:3-32 | the table has the input's dimensions, and cell `(i, j)` is the input's sum over rows `0..i` and columns `0..j` inclusive |
| Summer.FastSumRectCorrect | array-sum/Summer.cc:34-55 | on the constructor's table, a fast query returns the rectangle's sum, including 0 for empty tables and queries |
| Summer.FastSumRect | array-sum/Summer.cc:34-37 | 0 when the table or the query has zero width or height |
| Summer.NewNaive | array-sum/Summer.cc:57-66 | the width is the number of inner vectors and the height is the length of the first one, or 0 when there is none |
| Summer.NaiveSumRect | array-sum/Summer.cc:68-77 | the sum of every cell in the rectangle |
| Summer.CompareSummers | array-sum/tests.cc:9-20 | built from one rectangular input, the fast and the naive answers to any in-bounds query are equal, and both are the rectangle's sum |

## Left out

- Ownership and parent pointers (`unique_ptr`, raw `parent` links, `getInRef`, `Node::grandparent`/`uncle`): the tree is an immutable datatype, so a parent link is the enclosing node. The parent-link assertions of `checkInvariant` (rbtree/rbtree.h:447-448) hold by construction.
- Keys are `int`; `KeyT` is only used through `<` and `==`.
- `checkInvariant` walks the tree with an explicit stack; the model scans the tree recursively, which visits the same paths. It is also called before and after every operation under `_DEBUG`; the model proves instead that the operations keep what it checks.
- The insert fixup is modelled bottom-up on the recursion's return path (CLRS). The source's "what if that if is false" branches (rbtree/rbtree.h:216-223, 237-244) cannot be taken on a valid tree, because a red parent is never the root.
- Leaf removal (rbtree/rbtree.h:276-281) detaches the node and then uses it as a phantom `cur` whose side test at line 317 always fails. The model runs the intended fixup at the removed leaf's place. Likewise it uses a non-null `cur` at line 315 and the intended parent link at lines 300-301. These are divergences from the code, recorded here rather than as findings, because the code as written has no defined behaviour there.
- Removal of a node with two children (rbtree/rbtree.h:290-311) is modelled as intended (the successor's entry replaces the removed one), but the code as written aborts on every such removal: `_DEBUG` is defined (line 13), `mSize` is decremented at line 271 while the node is still in the tree, and `treeSuccessor` first calls `checkInvariant` (lines 381-383), whose `assert(counted == mSize)` (line 455) fails. For example, removing 2 from black 2 over black 1 and black 3 aborts, whereas `RBRemove.Remove` returns a valid tree. Were that assertion passed, line 386 would still read the uninitialised `node` instead of `node_in`; the model descends from the removed node's right child.
- RSAPrime.PrimeTestOneBase: only its soundness for a passing base is stated (Fermat's condition). That a rejection is correct, because a nontrivial square root of 1 proves `x` composite, needs number theory beyond this model.
- RSAPrime.IsPrime: the `N` random bases of `random.randint` are a parameter. A number declared prime is only shown to pass Fermat's condition, not to be prime.
- Key generation (`get_prime`, `RSAPrivateKey`), encryption and decryption, pickle key files and the command line (rsa/rsa.py:164-170, 245-411): randomness and I/O.
- `math.log` in `modmul`, `modexp` and `_base_from_modulo` is floating point. It is replaced by exact integer bit lengths (`BitLength`, `RoundLog2`, `CeilLog2`). For inputs large enough that the floating-point logarithm rounds differently, the model follows the exact value.
- RSAEuclid.ModInv: requires `n >= 1`. For `n = 0`, `_extended_euclidean(x, 0)` returns `(1, 0, x)` (rsa/rsa.py:50-51), so `modinv` returns `None` for every `x` other than 1, and raises on `a % 0` for `x = 1` (rsa/rsa.py:104-107). That case is not modelled; the only caller (rsa/rsa.py:265) passes a modulus of at least 1.
- Negative arguments to the RSA functions are not modelled (all parameters are naturals). `gcd` asserts this; the others are only called with naturals.
- RSAMessage.Decode: requires a modulus above 256, where the source asserts `bytes_per_item >= 1`. Items are Python integers and bytes are `chr` values, modelled as integers in `0..255`.
- `Message.__eq__`/`__ne__` are Dafny's structural equality on the datatype.
- Summer: C++ `int` overflow and `unsigned` wrap-around are not modelled; sums are unbounded integers. Queries are required to be in bounds, as the header demands (array-sum/Summer.h:21-24). The 2-D `vector` is a sequence of sequences updated in place by the constructor's loops.
- Summer.NewNaive: requires rectangular input, which the naive constructor (array-sum/Summer.h:43-46) does not ask for; every caller in array-sum/tests.cc passes rectangular data, and the sums are only defined on it.
- rbtree/tests.cc, the codejam library, naivebayes and the rest of the repository are not part of this model.

## Findings

| source | as written | input that shows it | evidently intended | confidence | as-written member | corrected member |
|---|---|---|---|---|---|---|
| rsa/rsa.py:48-52 | the base case returns `(1, 0, a)` for the already swapped pair without swapping back | `_extended_euclidean(0, 5)` returns `(1, 0, 5)`, and `0*1 + 5*0 != 5` | undo the swap in the base case too, giving `(0, 1, 5)` | not executed | RSAEuclid.AsWrittenBreaksBezout | RSAEuclid.ExtendedEuclidean |
| rbtree/rbtree.h:357 | `sibling->left->color` is read when the sibling's left child may be null | removing 4 from black 3 (left: black 1 with red right child 2; right: black 4) | treat a null child as black | not executed | RBFindings.NullNearChildOnRight | RBRemove.BalRight |
| rbtree/rbtree.h:360 | the mirror case rotates the sibling right, where a left rotation is needed | removing 11 from black 8 (left: black 4 over black 2 and red 6 with black children 5 and 7; right: black 10 over black 9 and 11) | `rotateLeft(sibling)` | not executed | RBFindings.WrongRotationOnRight | RBRemove.BalRight |
| rbtree/rbtree.h:331 | `sibling->right->color` is read when the sibling's right child may be null | no removal reaches it while lines 315 and 317 stand: a null `cur` fails first at line 315, the detached leaf always fails the side test at line 317, and a black `cur` reached by climbing has a sibling whose children are not null. With a real `cur` and the intended side test (the fixes the model adopts), removing 1 from black 2 (left: black 1; right: black 4 with red left child 3) reaches line 331 with a null far child (`BalLeftAsWritten`) | treat a null child as black | not executed | RBFindings.NullFarChildOnLeft | RBRemove.BalLeft |
