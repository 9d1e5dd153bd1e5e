# AVLTree<int, int> in Dafny

This is a model of the ordered map `AVLTree<Key, Value, Compare>` from
`main.cpp`, instantiated as it is used, with `int` keys and values and the
default three-way comparator `DefComparator`. The model also proves
properties of that map.

The map is a binary search tree. Each node stores its key, its value, two
child pointers, an 8-bit `height` and an `int` subtree `count`. The tree has
four operations:

- `find` walks down by comparison.
- `insert` adds a leaf where the walk falls off the tree, and leaves a key
  that is already present alone.
- `erase` replaces the node it finds by its left child, or by the minimum of
  its right subtree, which `find_remove_min` detaches.
- `size` returns the `nodes_count` field, which `insert_aux` and
  `erase_aux` keep up to date.

On the way back up, every node passes through `balance`. That function
recomputes the node's metadata (`fix_height`), reads the balance factor
(`bfactor`) and may rotate (`rotate_left`, `rotate_right`).

## How the model is built

- **Modules.**
  - `DefComparator` is the comparator.
  - `AvlNodes` holds the node type and the abstract views of a tree:
    - its key set;
    - the map it denotes;
    - its in-order sequence;
    - the invariants: search order, consistent metadata, and right lean.
  - `AvlBalance` holds `fix_height`, `bfactor`, the two rotations and
    `balance`.
  - `AvlOps` holds `find_aux`, `insert_aux`, `find_remove_min` and
    `erase_aux`.
  - `AvlTreeMap.AvlTree` is the object with its `root` and `nodes_count`
    fields.
  - `AvlScenarios` replays the test that is commented out in `main`.
- **Trees are values.** Every node owns its children exclusively and there
  are no parent links. The in-place relinking in the source is therefore
  modelled as pure functions that return the new subtree root. A null
  pointer is `Leaf`.
- **Public members change state.** The class's `Insert` and `Erase`
  reassign `root` and update `nodesCount`. Inside `insert_aux` and
  `erase_aux`, the `nodes_count++`/`nodes_count--` is returned as a flag
  beside the new subtree, and the class method applies it.
- **Heights are 8-bit.** `height` is stored as `uint8`: `FixHeight` computes
  `(max + 1) % 256`.
- **The balance factor is unsigned.** `bfactor` returns `uint8_t`, so
  `BFactor` is `(height(right) - height(left)) % 256`. As a result, a node
  whose left side is taller reads `256 - (hl - hr)`, never a negative
  number, and never -2. The `bf == -2` branch
  and the `bfactor(node->right) < 0` test can never be true. `Balance` proves
  both branches unreachable, so the only rotation that ever happens is a
  single `rotate_left`.
- **The tree is not height-balanced.** The code does not keep the AVL
  balance condition, and the model does not claim it. What it does keep is
  the right half of the condition: at every node, the right subtree is at
  most one level taller than the left (`RightLean`). The left side may grow
  without bound; `DescendingInsertsLeanLeft` shows a three-key chain.
- **Two height bounds.**
  - *The class invariant rules out wrapped heights.* `WellFormed` demands
    that every stored height is the true height, so a valid tree is at most
    255 levels tall. `Find` and `Size` work at every such height.
  - *`Erase` needs height 254 or below, and `Insert` 253 or below.* Take a
    node whose left subtree is 254 levels tall and whose right child is
    null. Its balance factor reads `(0 - 254) mod 256 = 2`, so the source
    would test `bfactor` of the null right child and rotate through it.
    `LeftHeight254ReachesNullRotation` shows that such a node is well
    formed and 255 tall. An insert that makes a 253-tall left side 254 tall
    over a null right child produces it, as the 255th key of a descending
    chain does; so does erasing the only right key of a 255-tall root.
    `Balance` excludes exactly this node besides wrapped heights.
- **Behaviour is stated against the denoted map.** Lookup, insertion and
  erasure are proved against `Contents()`, the map the tree denotes. `size()` is proved to equal
  the number of keys in that map.
- **Helpers have no contracts of their own.** `AvlNodes.Height` and
  `AvlNodes.CountOf` model `height(node)` and `count(node)` directly
  (main.cpp:110-117): 0 for a null pointer, the stored field otherwise.
  `AvlNodes.Max` is `std::max` (main.cpp:122). Every fact about them is
  stated where they are used: in `FixHeight`, `BFactor`, `WellFormed`,
  `CountIsKeyCount` and `HeightAtMostCount`.

## Model

| member | source | states |
|---|---|---|
| DefComparator.Compare | main.cpp:4-13 | returns -1 exactly when `l < r`, 0 exactly when they are equal, and 1 exactly when `r < l` |
| DefComparator.CompareAntisymmetric | main.cpp:6-12 | swapping the operands negates the answer; a key compares equal to itself |
| AvlNodes.CountIsKeyCount | main.cpp:115-122 | on a well-formed search tree, the stored count equals the number of distinct keys and the number of bindings, so keys are unique |
| AvlNodes.HeightAtMostCount | main.cpp:110-122 | a well-formed tree is never taller than its node count |
| AvlNodes.CountNonNegative | main.cpp:115-122 | stored counts are non-negative; a node has count and height at least 1 |
| AvlNodes.BindingsDomain | main.cpp:18-24 | the keys of the denoted map are exactly the keys stored in the nodes |
| AvlNodes.BindingsOfNode | main.cpp:51-61 | in a search tree, a key's binding is the node's own binding or lies on the side its order points to |
| AvlBalance.FixHeight | main.cpp:118-123 | keeps key, value and children; count becomes count(left)+count(right)+1; without wrap-around, height becomes max+1 and the node is well formed |
| AvlBalance.BFactor | main.cpp:124-126 | the unsigned difference: `hr - hl` when the right side is at least as tall, `256 - (hl - hr)` when the left side is taller |
| AvlBalance.RotateLeft | main.cpp:141-148 | the right child becomes the root with the old root as its left child, which takes over the child's old left subtree; in-order sequence and key set are unchanged; counts add up; the result is well formed |
| AvlBalance.RotateRight | main.cpp:150-157 | the mirror image of `RotateLeft`, with the same preservation facts |
| AvlBalance.Balance | main.cpp:127-140 | defined for children up to 254 tall except a 254-tall left side over a null right child; both dead branches are unreachable; in-order sequence and key set are unchanged; over well-formed children the result is well formed, with count(left)+count(right)+1 and height at most max+1 |
| AvlBalance.RotateLeftKeepsBst | main.cpp:141-148 | a left rotation of a search tree is a search tree |
| AvlBalance.RotateLeftKeepsOrder | main.cpp:141-148 | a left rotation keeps the search order and the denoted map |
| AvlBalance.RotateRightKeepsBst | main.cpp:150-157 | a right rotation of a search tree is a search tree |
| AvlBalance.RotateRightKeepsOrder | main.cpp:150-157 | a right rotation keeps the search order and the denoted map |
| AvlBalance.BstOfLeftSpine | main.cpp:141-148 | a node over a left child whose keys are ordered around both keys is a search tree (the shape `rotate_left` builds) |
| AvlBalance.BstOfRightSpine | main.cpp:150-157 | the mirror image, for the shape `rotate_right` builds |
| AvlBalance.BalanceKeepsOrder | main.cpp:127-140 | `balance` keeps the search order and the denoted map |
| AvlBalance.BalanceRotatesOnlyRightHeavy | main.cpp:124-140 | `balance` is a single left rotation exactly when the right subtree is two levels taller, and is only `fix_height` otherwise, however left-heavy the node |
| AvlBalance.BalanceKeepsLean | main.cpp:127-148 | over right-lean children whose right side is at most two levels taller, `balance` gives a right-lean subtree at least as tall as the taller side |
| AvlBalance.BalanceIdle | main.cpp:127-140 | a well-formed node whose right side is at most one level taller comes back unchanged |
| AvlOps.FindAux | main.cpp:51-61 | a value is found only for a key the tree holds |
| AvlOps.FindAuxCorrect | main.cpp:51-61 | on a search tree, `find_aux` returns the value bound to the key, and null exactly when the key is unbound |
| AvlOps.InsertAux | main.cpp:62-75 | the result is a well-formed node; the key set gains the key; the height grows by at most one; the count grows by one exactly when the flag (`nodes_count++`) is raised |
| AvlOps.InsertAuxBindings | main.cpp:62-75 | insertion keeps the search order; the flag is raised exactly when the key was absent; an absent key gains its binding, and a present key keeps its old value and everything else |
| AvlOps.InsertBelow | main.cpp:67-72 | a node whose child on the key's side has had the key inserted denotes the map with the key inserted |
| AvlOps.InsertAuxLean | main.cpp:62-75 | insertion keeps every node right-lean and never lowers the tree |
| AvlOps.InsertAuxPresent | main.cpp:67-73 | inserting a key that is already present returns the very same tree and no new node |
| AvlOps.FindRemoveMin | main.cpp:101-108 | hands back a node without a left child; the remaining tree is well formed, no taller, holds the other keys, and has one node fewer |
| AvlOps.FindRemoveMinBindings | main.cpp:101-108 | the node handed back holds the smallest key and its value; the remaining tree is a search tree holding exactly the other bindings |
| AvlOps.RemoveMinBelow | main.cpp:106-107 | the minimum of the left subtree, removed there, is the minimum of the node, removed from it |
| AvlOps.FindRemoveMinLean | main.cpp:101-108 | removing the minimum keeps every node right-lean and lowers the tree by at most one level |
| AvlOps.EraseAux | main.cpp:76-99 | the result is well formed and no taller; the key set can only shrink; the flag (`nodes_count--`) is raised only for a present key, and then the count drops by one |
| AvlOps.EraseAuxBindings | main.cpp:76-99 | erasure keeps the search order, removes exactly the key's binding and keeps all others; the flag is raised exactly when the key was present |
| AvlOps.RemoveBelow | main.cpp:80-83 | a node whose child on the key's side has lost the key denotes the map without the key |
| AvlOps.LeftReplaces | main.cpp:89-90 | a found node without a right child is replaced by its left child, which denotes the map without the key |
| AvlOps.SuccessorReplaces | main.cpp:91-96 | the minimum of the right subtree, over the left child and the rest of the right subtree, is a search tree denoting the map without the erased key |
| AvlOps.EraseAuxLean | main.cpp:76-99 | erasure keeps every node right-lean and lowers the tree by at most one level |
| AvlOps.EraseAuxAbsent | main.cpp:76-99 | erasing an absent key returns the very same tree and lowers no count |
| AvlOps.DescendingInsertsLeanLeft | main.cpp:124-137 | inserting three keys in descending order gives a left chain of height 3 with an empty right side, in order: the left-heavy case is never rotated |
| AvlOps.InsertBelowLeaf | main.cpp:62-75 | inserting a smaller key below a single node hangs it on the left without a rotation |
| AvlOps.LeftHeight254ReachesNullRotation | main.cpp:124-133 | a node with a left subtree 254 tall and a null right child is a well-formed tree 255 tall with balance factor 2, so `balance` would rotate it left through the null child |
| AvlOps.LeftHeight254ReachesHeight255 | main.cpp:118-139 | a node with a left subtree 254 tall and a right subtree 1 tall reads balance factor 3, so `balance` leaves it as `fix_height` made it: a well-formed tree 255 tall |
| AvlTreeMap.AvlTree.constructor | main.cpp:38-39 | the new map is empty, with a null root and `nodes_count` 0 |
| AvlTreeMap.AvlTree.Find | main.cpp:41-43 | returns the value bound to the key, or null when the key is unbound |
| AvlTreeMap.AvlTree.Insert | main.cpp:44-46 | on a tree at most 253 tall, an absent key gains the binding and `nodes_count` grows by one; for a present key the map, the root and `nodes_count` are unchanged; the invariant is kept; the height grows by at most one |
| AvlTreeMap.AvlTree.Erase | main.cpp:47-49 | on a tree at most 254 tall, the key's binding goes and `nodes_count` drops by one exactly when the key was present; an absent key leaves the root unchanged; the invariant is kept; the height drops by at most one |
| AvlTreeMap.AvlTree.Size | main.cpp:50 | `nodes_count` is the number of keys in the map |
| AvlScenarios.InsertThenEraseHundred | main.cpp:166-178 | inserting 0..99 and then erasing 0..99 leaves `size()` at 0 |
| AvlScenarios.InsertAscending | main.cpp:167-170 | after inserting 0..99, the map binds exactly 0..99, each to itself, and `nodes_count` is 100 |
| AvlScenarios.InsertNext | main.cpp:168-169 | one round of the insert loop: `find(i)` gives `i` right after `insert(i, i)` |
| AvlScenarios.EraseAscending | main.cpp:172-177 | erasing 0..99 in order empties the map |
| AvlScenarios.EraseNext | main.cpp:173-175 | one round of the erase loop: `find(i)` gives `i` before `erase(i)` and null afterwards |
| AvlScenarios.DuplicateInsert | main.cpp:67-73 | inserting a present key again keeps its first value and the size |
| AvlScenarios.EraseFromEmpty | main.cpp:76-78 | erasing from an empty map leaves the size at 0 |

## Left out

- The `main()` command loop (main.cpp:180-193) reads numbers from standard input and calls `insert(v, v)` or `erase(-v)` for each. It is input handling and is not modelled.
- Memory management is not observable in a model on values: the `delete` in `erase_aux`, the destructor (which frees only the root node), and allocation failure of `new Node`.
- `Node::operator=` is not modelled. It is never called and it has no return statement.
- The model is not generic. Keys and values are `int` and the comparator is always `DefComparator`. The `comp` field is therefore dropped, and other `Compare` functors are not modelled.
- The tree is relinked in place in the source but modelled on values. Ownership is strict, so no aliasing is observable. Only the order of the individual field writes is not captured.
- `find` and `find_aux` return a pointer to the stored value. The model returns the value, or `None` for null. Writing through that pointer is not modelled.
- AvlTreeMap.AvlTree.Insert: `requires Height(root) <= 253`. Some inserts into a 254-tall tree make the source dereference a null right child (see `LeftHeight254ReachesNullRotation`), and a 255-tall result would wrap round on the next level. The bound also excludes the inserts into 254-tall trees that the source completes without fault, for example inserting a new smallest key into a descending chain of 254 keys with one larger key on the right of its root, which yields a 255-tall tree (see `LeftHeight254ReachesHeight255`). Those inserts are not modelled.
- AvlTreeMap.AvlTree.Erase: `requires Height(root) <= 254`. The source reaches 255-tall trees without fault (above). Erasing the root's only right key from such a tree leaves the root a 254-tall left side and a null right child, which `balance` reads as right-heavy before dereferencing the null child. Some other erases from a 255-tall tree complete normally, but no erase from a 255-tall tree is modelled.
- AvlTreeMap.AvlTree.Valid: admits 255-tall trees, which `Find` and `Size` handle. It records no height bound of its own, so `Insert` and `Erase` state theirs as preconditions.
- AvlBalance.Balance: requires both children at most 254 tall, and not a 254-tall left side over a null right child. A 255-tall child would make the source store the wrapped height 0, which is not modelled; the excluded node is the one whose rotation dereferences null.
- AvlOps.InsertAux, AvlOps.EraseAux and AvlOps.FindRemoveMin require a well-formed tree of height at most 253, 254 and 254 respectively, the bounds `Insert` and `Erase` demand. Trees with inconsistent or wrapped metadata are not modelled.
- The node's `int count` and the map's `size_t nodes_count` are unbounded in the model. Overflow at 2^31 or 2^64 nodes is not modelled.
- No AVL height balance and no logarithmic height bound are claimed, because the code does not keep them. Only the right-lean half of the condition is proved.
