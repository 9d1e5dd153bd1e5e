/**
  The node type of `AVLTree<int, int>` and the abstract views of a tree of
  nodes: its key set, its bindings, its in-order sequence, and the shape
  invariants the operations keep.

  A `Node*` that may be `nullptr` is a `Tree`; `Leaf` is `nullptr`. Each node
  owns its children exclusively, so a subtree is a value.
*/
module AvlNodes {

  /** The C++ `uint8_t` in which a node stores its height. */
  type uint8 = x: int | 0 <= x < 256

  datatype Option<T> = None | Some(value: T)

  datatype Tree =
    | Leaf
    | Node(key: int, value: int, left: Tree, right: Tree, height: uint8, count: int)

  /** `height(node)`: the stored height, 0 for an empty subtree. */
  function Height(t: Tree): uint8 {
    match t
    case Leaf => 0
    case Node(_, _, _, _, h, _) => h
  }

  /** `count(node)`: the stored subtree size, 0 for an empty subtree. */
  function CountOf(t: Tree): int {
    match t
    case Leaf => 0
    case Node(_, _, _, _, _, c) => c
  }

  /** `std::max` on two heights. */
  function Max(a: int, b: int): int {
    if a < b then b else a
  }

  // ---------------------------------------------------------------------
  // Abstract views
  // ---------------------------------------------------------------------

  ghost function Keys(t: Tree): set<int> {
    match t
    case Leaf => {}
    case Node(k, _, l, r, _, _) => Keys(l) + Keys(r) + {k}
  }

  /** The map a tree denotes; a node's own binding wins over its subtrees'. */
  ghost function Bindings(t: Tree): map<int, int> {
    match t
    case Leaf => map[]
    case Node(k, v, l, r, _, _) => (Bindings(l) + Bindings(r))[k := v]
  }

  /** The (key, value) pairs in in-order (left, node, right) order. */
  ghost function InOrder(t: Tree): seq<(int, int)> {
    match t
    case Leaf => []
    case Node(k, v, l, r, _, _) => InOrder(l) + [(k, v)] + InOrder(r)
  }

  // ---------------------------------------------------------------------
  // Invariants
  // ---------------------------------------------------------------------

  /** Binary-search-tree order: smaller keys to the left, greater to the right. */
  ghost predicate Bst(t: Tree) {
    match t
    case Leaf => true
    case Node(k, _, l, r, _, _) =>
      && Bst(l) && Bst(r)
      && (forall x :: x in Keys(l) ==> x < k)
      && (forall x :: x in Keys(r) ==> k < x)
  }

  /** Every node's `count` and `height` agree with its children (no wrap-around). */
  ghost predicate WellFormed(t: Tree) {
    match t
    case Leaf => true
    case Node(_, _, l, r, h, c) =>
      && WellFormed(l) && WellFormed(r)
      && c == CountOf(l) + CountOf(r) + 1
      && h == Max(Height(l), Height(r)) + 1
  }

  /** At no node is the right subtree more than one level taller than the left.
      This is the half of the AVL balance condition the code maintains. */
  ghost predicate RightLean(t: Tree) {
    match t
    case Leaf => true
    case Node(_, _, l, r, _, _) =>
      RightLean(l) && RightLean(r) && Height(r) <= Height(l) + 1
  }

  // ---------------------------------------------------------------------
  // Facts about the views
  // ---------------------------------------------------------------------

  lemma {:induction false} BindingsDomain(t: Tree)
    ensures Bindings(t).Keys == Keys(t)
  {
    match t
    case Leaf =>
    case Node(_, _, l, r, _, _) =>
      BindingsDomain(l);
      BindingsDomain(r);
  }

  /** In a search tree a key's binding is found on the side its order points to. */
  lemma BindingsOfNode(t: Tree, x: int)
    requires t.Node? && Bst(t)
    ensures x == t.key ==> x in Bindings(t) && Bindings(t)[x] == t.value
    ensures x < t.key ==> (x in Bindings(t) <==> x in Bindings(t.left))
    ensures x < t.key && x in Bindings(t.left) ==> Bindings(t)[x] == Bindings(t.left)[x]
    ensures t.key < x ==> (x in Bindings(t) <==> x in Bindings(t.right))
    ensures t.key < x && x in Bindings(t.right) ==> Bindings(t)[x] == Bindings(t.right)[x]
  {
    BindingsDomain(t.left);
    BindingsDomain(t.right);
  }

  /** The stored count is the number of distinct keys: the keys are unique. */
  lemma {:induction false} CountIsKeyCount(t: Tree)
    requires WellFormed(t) && Bst(t)
    ensures CountOf(t) == |Keys(t)| == |Bindings(t)|
  {
    BindingsDomain(t);
    match t
    case Leaf =>
    case Node(k, _, l, r, _, _) =>
      CountIsKeyCount(l);
      CountIsKeyCount(r);
      var kl, kr := Keys(l), Keys(r);
      assert kl !! kr by {
        forall x | x in kl && x in kr ensures false {
        }
      }
      assert |kl + kr| == |kl| + |kr|;
      assert k !in kl + kr;
      assert |kl + kr + {k}| == |kl + kr| + 1;
  }

  /** A well-formed tree is never taller than it has nodes. */
  lemma {:induction false} HeightAtMostCount(t: Tree)
    requires WellFormed(t)
    ensures Height(t) <= CountOf(t)
  {
    match t
    case Leaf =>
    case Node(_, _, l, r, _, _) =>
      HeightAtMostCount(l);
      HeightAtMostCount(r);
      CountNonNegative(l);
      CountNonNegative(r);
  }

  lemma {:induction false} CountNonNegative(t: Tree)
    requires WellFormed(t)
    ensures 0 <= CountOf(t)
    ensures t.Node? ==> 1 <= CountOf(t) && 1 <= Height(t)
  {
    match t
    case Leaf =>
    case Node(_, _, l, r, _, _) =>
      CountNonNegative(l);
      CountNonNegative(r);
  }
}
