# Red-black tree with a shared sentinel, modelled in Dafny

This project models `data_structures/rbtree.py`, a red-black tree whose
empty children are all one shared black sentinel node `NIL`. It proves
the following about the model:

- insertion and deletion keep the red-black properties;
- both keep the keys in order;
- insertion adds exactly the new key, and deletion removes exactly one
  occurrence of the key it is given;
- the repair loops rotate at most twice (insertion) and at most three
  times (deletion), as the source's docstrings promise.

## The model

- **Arena.** The tree object is the class `RedBlack.RedBlackTree`. Its
  nodes live in an arena addressed by index.
  - Slot 0 (`NIL`) is the sentinel: it is black and its children are
    `NONE`.
  - Every other slot is a node made by an insertion.
  - The sequence fields `key`, `color`, `left`, `right` and `parent` hold
    each node's `data`, `color`, `left`, `right` and `parent`.
  - `NONE` (-1) stands for Python's `None`. It is the root's parent and
    both children of the sentinel.
  - `root` is the index of the root node, or `NIL` when the tree is empty.
- **Shape.** The ghost field `T` records the shape of the tree as a
  datatype of slot indices. `Valid()` ties `T` to the arena:
  - the links spell out `T` from `root` down;
  - each node's `parent` names its tree parent;
  - the sentinel is black;
  - the keys read in symmetric order are non-decreasing.

  `IsRedBlack()` adds the three colour rules: the root is black, no red
  node has a red child, and every path down has the same number of black
  nodes.
- **Imperative operations.** Every operation that changes the tree is a
  method that rewrites the arena in the source's own order. This covers
  rotations, `transplant`, `insert` and its repair loop, and `delete`
  with its repair loop. `search` and `minimum` are loops over the arena.
  Like the source, `transplant` and the two-child case of `delete` also
  write the sentinel's `parent` field.
- **Pure specifications.** Each method is proved against pure functions of
  the shape:
  - `RotateLeftAt`/`RotateRightAt` on trees;
  - `RotLLinks`/`RotRLinks`/`TransplantLinks`/`SuccessorLinks` on the link
    arrays;
  - `InsertSorted`/`RemoveFirst` on the key sequence.

  Lemmas prove what the source relies on about these functions.
- **Traversals.** The three traversals are recursive functions. Each
  returns the sequence of `(key, color)` pairs that the source prints.

## Model

| member | source | states |
|---|---|---|
| RedBlack.RedBlackTree.constructor | data_structures/rbtree.py:11-20 | the new tree holds only the black sentinel, which is also the root; it is valid, red-black and has no keys |
| RedBlack.RedBlackTree.NewNode | data_structures/rbtree.py:98-99 | a new node is red, has the sentinel as both children and no parent, and is not yet in the tree; the tree and its keys are unchanged |
| RedBlack.RedBlackTree.RotateLeft | data_structures/rbtree.py:28-58 | a left rotation at x: the shape becomes `RotateLeftAt(T, x)`, the links become `RotLLinks`, the root moves to x's right child when x was the root; symmetric order, node set, keys and colours are unchanged and the arena stays valid |
| RedBlack.RedBlackTree.RewireLeft | data_structures/rbtree.py:36-58 | the link writes of a left rotation, made in the source's order, produce exactly `RotLLinks` of the old links |
| RedBlack.RedBlackTree.RotateRight | data_structures/rbtree.py:60-84 | mirror of RotateLeft: shape `RotateRightAt(T, x)`, links `RotRLinks`, symmetric order and keys unchanged, still valid |
| RedBlack.RedBlackTree.RewireRight | data_structures/rbtree.py:68-84 | the link writes of a right rotation produce exactly `RotRLinks` of the old links |
| RedBlack.RedBlackTree.Transplant | data_structures/rbtree.py:182-196 | u's parent (or the root) now points to v, and v's parent becomes u's parent even when v is the sentinel; keys and colours are unchanged |
| RedBlack.RedBlackTree.Search | data_structures/rbtree.py:315-329 | returns the sentinel exactly when k is not among the tree's keys, and otherwise a node of the tree whose key is k |
| RedBlack.RedBlackTree.Minimum | data_structures/rbtree.py:331-341 | returns the leftmost node of the subtree at x; it has no left child and its key is at most every key in that subtree |
| RedBlack.RedBlackTree.InorderFrom | data_structures/rbtree.py:352-356 | `_inorder(n)` yields the pairs of the subtree's nodes in symmetric order |
| RedBlack.RedBlackTree.PreorderFrom | data_structures/rbtree.py:362-366 | `_preorder(n)` yields each node's pair before its subtrees' pairs |
| RedBlack.RedBlackTree.PostorderFrom | data_structures/rbtree.py:371-375 | `_postorder(n)` yields each node's pair after its subtrees' pairs |
| RedBlack.RedBlackTree.Inorder | data_structures/rbtree.py:348-356 | the in-order output has one pair per key of the tree, in the tree's key order, with non-decreasing keys |
| RedBlack.RedBlackTree.Preorder | data_structures/rbtree.py:358-366 | the pre-order output is a permutation of the in-order output and starts with the root's pair |
| RedBlack.RedBlackTree.Postorder | data_structures/rbtree.py:368-375 | the post-order output is a permutation of the in-order output and ends with the root's pair |
| RedBlack.RedBlackTree.Insert | data_structures/rbtree.py:90-122 | inserting k into a valid red-black tree leaves a valid red-black tree whose keys are the old keys with k inserted after the equal ones; exactly one node is added; at most 2 rotations |
| RedBlack.RedBlackTree.FixInsert | data_structures/rbtree.py:124-176 | from a tree whose only flaw is the red node z under a red parent, the loop and the final root blackening restore all red-black properties with at most 2 rotations, keeping symmetric order and keys |
| RedBlack.RedBlackTree.FixInsertLeft | data_structures/rbtree.py:136-156 | one round with z's parent a left child: case 1 recolours and moves z up, cases 2-3 rotate (at most twice) and end the loop; the repair state is kept and z's depth strictly decreases |
| RedBlack.RedBlackTree.FixInsertRight | data_structures/rbtree.py:158-174 | mirror of FixInsertLeft for a parent that is a right child |
| RedBlack.RedBlackTree.Delete | data_structures/rbtree.py:198-242 | reports whether k was present; when absent the tree is unchanged; otherwise the keys lose exactly one occurrence of k; the tree stays valid and red-black, with at most 3 rotations |
| RedBlack.RedBlackTree.SpliceOut | data_structures/rbtree.py:214-221 | removing a node with an empty child removes its key once; a red node leaves a red-black tree, a black one leaves the repair state at x |
| RedBlack.RedBlackTree.ReplaceBySuccessor | data_structures/rbtree.py:222-238 | the two-child case removes z's key once; y's original colour decides whether the result is already red-black or is the repair state at x |
| RedBlack.RedBlackTree.Successor | data_structures/rbtree.py:224-226 | `minimum(z.right)` is the bottom of the left spine of z's right subtree; it has no left child, and its parent is z exactly when it is z's right child |
| RedBlack.RedBlackTree.RelinkSuccessor | data_structures/rbtree.py:228-238 | the writes of the two-child case, in the source's order, produce `SuccessorLinks` of the old links; y takes z's colour and nothing else is recoloured |
| RedBlack.RedBlackTree.FixDelete | data_structures/rbtree.py:244-309 | from a tree one black node short at x, the loop and the final `x.color = black` restore all red-black properties with at most 3 rotations, keeping symmetric order and keys |
| RedBlack.RedBlackTree.FixDeleteLeft | data_structures/rbtree.py:256-284 | one round with x a left child keeps the repair state and decreases the loop measure; it ends at the root or at a red x when it rotates |
| RedBlack.RedBlackTree.BlackSiblingLeft | data_structures/rbtree.py:267-284 | with a black sibling: case 2 moves the deficit up; cases 3-4 rotate at most twice and finish at the root |
| RedBlack.RedBlackTree.RotateRedSiblingLeft | data_structures/rbtree.py:260-265 | case 1: after the recolour and left rotation, x is still short and has a black sibling under a red parent |
| RedBlack.RedBlackTree.RotateNearNephewLeft | data_structures/rbtree.py:272-277 | case 3: after the recolour and right rotation at the sibling, the sibling is black with a red far nephew |
| RedBlack.RedBlackTree.RotateFarNephewLeft | data_structures/rbtree.py:279-284 | case 4: the recolour and left rotation at the parent remove the deficit; the repair ends at the root |
| RedBlack.RedBlackTree.FixDeleteRight | data_structures/rbtree.py:286-307 | mirror of FixDeleteLeft for x a right child |
| RedBlack.RedBlackTree.BlackSiblingRight | data_structures/rbtree.py:294-307 | mirror of BlackSiblingLeft |
| RedBlack.RedBlackTree.RotateRedSiblingRight | data_structures/rbtree.py:288-293 | mirror of RotateRedSiblingLeft |
| RedBlack.RedBlackTree.RotateNearNephewRight | data_structures/rbtree.py:298-302 | mirror of RotateNearNephewLeft |
| RedBlack.RedBlackTree.RotateFarNephewRight | data_structures/rbtree.py:303-307 | mirror of RotateFarNephewLeft |
| Shapes.RotLKeeps | data_structures/rbtree.py:36-58 | a left rotation of a subtree keeps its symmetric order, its node set and the distinctness of its nodes |
| Shapes.RotRKeeps | data_structures/rbtree.py:68-84 | the same for a right rotation |
| Shapes.RotateLeftAtKeeps | data_structures/rbtree.py:28-58 | rotating left anywhere in the tree keeps the whole tree's symmetric order and node set |
| Shapes.RotateRightAtKeeps | data_structures/rbtree.py:60-84 | the same for a right rotation |
| Shapes.OrdersHaveIds | data_structures/rbtree.py:352-375 | each traversal visits exactly the tree's nodes, each once; pre-order and post-order are permutations of in-order |
| Rewiring.RotLLinksAt | data_structures/rbtree.py:36-58 | slot by slot, a left rotation changes only x, its right child, that child's left child and x's parent, and exactly as the source's assignments say |
| Rewiring.RotRLinksAt | data_structures/rbtree.py:68-84 | the same for a right rotation |
| Rewiring.TransplantSlots | data_structures/rbtree.py:189-196 | transplant changes only u's parent's child pointer (or nothing when u is the root) and v's parent |
| Arena.NewSlotWf | data_structures/rbtree.py:98-99 | appending a red node outside the tree keeps the arena valid and leaves the keys and the colour rules of the tree unchanged |
| Arena.RotateLeftWf | data_structures/rbtree.py:28-58 | a left rotation at a node with a real right child maps a valid arena to a valid arena with the rotated shape |
| Arena.RotateRightWf | data_structures/rbtree.py:60-84 | the same for a right rotation |
| Arena.SearchStep | data_structures/rbtree.py:324-328 | a key present in a sorted subtree, and different from the node's key, is in the child the comparison selects |
| Arena.SearchDone | data_structures/rbtree.py:323-329 | when the search stops, it is at the sentinel exactly when the key is absent, and otherwise at a node holding the key |
| TreeOrder.LeftmostFirst | data_structures/rbtree.py:339-341 | the leftmost node of a subtree is the first in its symmetric order |
| TreeOrder.LeftmostMin | data_structures/rbtree.py:339-341 | the leftmost node of a sorted subtree holds its least key |
| KeyOrder.InsertSortedKeepsOrder | data_structures/rbtree.py:104-119 | inserting into a sorted key sequence keeps it sorted and adds exactly the one key |
| KeyOrder.InsertSortedCount | data_structures/rbtree.py:104-119 | insertion adds exactly one occurrence of the key and nothing else |
| KeyOrder.RemoveFirstKeepsOrder | data_structures/rbtree.py:206-242 | removing a present key from a sorted sequence keeps it sorted and removes exactly one occurrence |
| KeyOrder.RemoveFirstAbsent | data_structures/rbtree.py:206-209 | removing an absent key changes nothing |
| KeyOrder.RemoveAtSorted | data_structures/rbtree.py:206-242 | in a sorted sequence, dropping any position that holds k is the same as dropping the first k, so the choice of equal node `search` finds does not matter |
| Insertion.DescentDone | data_structures/rbtree.py:104-110 | the descent ends at an empty position of the tree |
| Insertion.Attach | data_structures/rbtree.py:112-119 | hanging the new red leaf where the descent stopped gives the insertion-repair state; the keys are the old keys with k inserted after the equal ones |
| Insertion.Recolor | data_structures/rbtree.py:140-145 | case 1 (red uncle): recolouring keeps the repair state at the grandparent, which is strictly higher |
| Insertion.TriangleLeft | data_structures/rbtree.py:149-151 | case 2 on the left: the rotation at the parent turns the zig-zag into a line and keeps the repair state |
| Insertion.LineLeft | data_structures/rbtree.py:153-156 | case 3 on the left: the recolour and the rotation at the grandparent leave z under a black parent, ending the loop |
| Insertion.TriangleRight | data_structures/rbtree.py:168-170 | mirror of TriangleLeft |
| Insertion.LineRight | data_structures/rbtree.py:172-174 | mirror of LineLeft |
| Insertion.FixDone | data_structures/rbtree.py:176 | once z's parent is not red, painting the root black gives a valid red-black tree |
| Deletion.Case1TreeLeft | data_structures/rbtree.py:260-265 | on shapes: case 1's recolour and rotation keep x exactly one black short, now with a black sibling and a red parent |
| Deletion.Case1TreeRight | data_structures/rbtree.py:288-293 | mirror of Case1TreeLeft |
| Deletion.Case2Tree | data_structures/rbtree.py:267-270 | on shapes: painting the sibling red moves the one-black deficit up to the parent |
| Deletion.Case3TreeLeft | data_structures/rbtree.py:272-277 | on shapes: case 3 keeps the deficit and makes the far nephew red |
| Deletion.Case3TreeRight | data_structures/rbtree.py:298-302 | mirror of Case3TreeLeft |
| Deletion.Case4TreeLeft | data_structures/rbtree.py:279-284 | on shapes: case 4's recolour and rotation give a tree with no red-red edge and equal black heights |
| Deletion.Case4TreeRight | data_structures/rbtree.py:303-307 | mirror of Case4TreeLeft |
| Deletion.ShortDone | data_structures/rbtree.py:309 | a red x heading the short subtree, painted black, removes the deficit |
| Repair.RedSiblingLeft | data_structures/rbtree.py:260-265 | case 1 on the arena: the state after the recolour and rotation is again the repair state, with a black sibling |
| Repair.RedSiblingRight | data_structures/rbtree.py:288-293 | mirror of RedSiblingLeft |
| Repair.NearNephewLeft | data_structures/rbtree.py:272-277 | case 3 on the arena: the repair state is kept and the new sibling has a red far nephew |
| Repair.NearNephewRight | data_structures/rbtree.py:298-302 | mirror of NearNephewLeft |
| Repair.FarNephewLeft | data_structures/rbtree.py:279-284 | case 4 on the arena: after the recolour and rotation the tree is valid and red-black |
| Repair.FarNephewRight | data_structures/rbtree.py:303-307 | mirror of FarNephewLeft |
| Repair.DelDone | data_structures/rbtree.py:254-309 | when the loop stops (x is the root or red), painting x black gives a valid red-black tree |
| Removal.SpliceLinked | data_structures/rbtree.py:214-221 | `transplant(z, child)` for a node with an empty child links the tree without z, and x's parent is z's former parent |
| Removal.SpliceState | data_structures/rbtree.py:214-221 | the one-child case keeps the arena valid and removes z's key once; a red z leaves a red-black tree, a black one leaves x one black short |
| Removal.SuccessorLinked | data_structures/rbtree.py:228-237 | the two-child writes link the tree with y in z's place, and x's parent is y's former parent, or y itself when y was z's right child |
| Removal.SuccessorOrderAt | data_structures/rbtree.py:222-238 | putting the successor y in z's place drops exactly z from the symmetric order |
| Removal.SuccessorState | data_structures/rbtree.py:222-238 | the two-child case keeps the arena valid and removes z's key once; y's original colour decides between red-black and one black short at x |
| Traversal.PreOrderAgrees | data_structures/rbtree.py:358-366 | pre-order reports the same pairs as in-order, each as often |
| Traversal.PostOrderAgrees | data_structures/rbtree.py:368-375 | post-order reports the same pairs as in-order, each as often |

## Left out

- Printing: `delete`'s "Value not found" message and the traversals'
  printed output are not modelled. `Delete` returns `found` instead. The
  traversals return the `(key, color)` pairs they would print.
- The time and space complexity claims in the docstrings are not
  modelled. The rotation bounds (2 for insertion, 3 for deletion) are
  modelled, as ghost counters.
- Keys are `int`; Python's comparison of arbitrary values is not
  modelled. The sentinel's `data` is `None` in the source and 0 in slot 0
  here; it is never read as a key of the tree.
- Node identity is the arena index. Nodes removed by `delete` stay in the
  arena with their old links, where Python would reclaim them once
  unreachable.
- Concurrency: the source has none, and neither does the model.
- Order within each node: the model keeps the key sequence read in
  symmetric order non-decreasing. It does not keep "left subtree keys
  strictly smaller, right subtree keys not smaller" at every node. With
  duplicate keys the code's rotations can move an equal key into a left
  subtree, so the code does not keep that stricter rule either. `search`
  stays correct under the weaker rule.
- RedBlack.RedBlackTree.RotateLeft: requires that x is in the tree and its
  right child is a real node. RotateRight requires the same of x's left
  child. The source rotates only in that situation.
- RedBlack.RedBlackTree.FixInsert: stated only for the state `insert`
  leaves (one red leaf under a possibly red parent in an otherwise
  red-black tree), the only state from which the source calls it.
- RedBlack.RedBlackTree.FixDelete: stated only for the states `delete`
  leaves (x one black node short in an otherwise red-black tree), the
  only states from which the source calls it.
- RedBlack.RedBlackTree.Minimum: requires a node of the tree. The source
  calls it only on `z.right` of a node with two children; called on the
  sentinel it would step to `None` and fail.
- The loop bodies of `fix_insert` and `fix_delete` are split into one
  method per side (and, for deletion, one per case). This keeps each proof
  small. The order of writes within each case is the source's.
