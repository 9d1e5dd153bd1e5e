/**
  The balancing primitives of `AVLTree`: `fix_height`, `bfactor`,
  `rotate_left`, `rotate_right` and `balance`. Each rewrites one or two
  nodes and returns the new subtree root, as the C++ members do by
  relinking pointers.
*/
module AvlBalance {
  import opened AvlNodes

  /** `fix_height`: recompute `count` and the 8-bit `height` from the children. */
  function FixHeight(t: Tree): (r: Tree)
    ensures r.Leaf? <==> t.Leaf?
    ensures t.Node? ==> r.key == t.key && r.value == t.value && r.left == t.left && r.right == t.right
    ensures t.Node? ==> r.count == CountOf(t.left) + CountOf(t.right) + 1
    ensures t.Node? && Max(Height(t.left), Height(t.right)) < 255 ==>
              r.height == Max(Height(t.left), Height(t.right)) + 1
    ensures t.Node? && WellFormed(t.left) && WellFormed(t.right) && Max(Height(t.left), Height(t.right)) < 255 ==>
              WellFormed(r)
  {
    match t
    case Leaf => Leaf
    case Node(k, v, l, r, _, _) =>
      Node(k, v, l, r, (Max(Height(l), Height(r)) + 1) % 256, CountOf(l) + CountOf(r) + 1)
  }

  /** `bfactor`: `height(right) - height(left)` converted to `uint8_t`, so a
      left-heavy difference wraps round to 256 minus its size. */
  function BFactor(t: Tree): (bf: uint8)
    requires t.Node?
    ensures Height(t.left) <= Height(t.right) ==> bf == Height(t.right) - Height(t.left)
    ensures Height(t.right) < Height(t.left) ==> bf == 256 - (Height(t.left) - Height(t.right))
  {
    (Height(t.right) - Height(t.left)) % 256
  }

  /** `rotate_left`: the right child `q` becomes the root, `p` its left child,
      and `q`'s old left subtree `p`'s new right subtree. */
  function RotateLeft(p: Tree): (r: Tree)
    requires p.Node? && p.right.Node?
    ensures r.Node? && r.key == p.right.key && r.right == p.right.right
    ensures r.left.Node? && r.left.key == p.key && r.left.left == p.left && r.left.right == p.right.left
    ensures InOrder(r) == InOrder(p)
    ensures Keys(r) == Keys(p)
    ensures CountOf(r) == CountOf(p.left) + CountOf(p.right.left) + CountOf(p.right.right) + 2
    ensures WellFormed(p.left) && WellFormed(p.right) && Height(p.left) <= 253 && Height(p.right) <= 254 ==>
              WellFormed(r)
  {
    var q := p.right;
    var p' := FixHeight(p.(right := q.left));
    FixHeight(q.(left := p'))
  }

  /** `rotate_right`: the mirror image of `RotateLeft`. */
  function RotateRight(p: Tree): (r: Tree)
    requires p.Node? && p.left.Node?
    ensures r.Node? && r.key == p.left.key && r.left == p.left.left
    ensures r.right.Node? && r.right.key == p.key && r.right.right == p.right && r.right.left == p.left.right
    ensures InOrder(r) == InOrder(p)
    ensures Keys(r) == Keys(p)
    ensures CountOf(r) == CountOf(p.left.left) + CountOf(p.left.right) + CountOf(p.right) + 2
    ensures WellFormed(p.right) && WellFormed(p.left) && Height(p.right) <= 253 && Height(p.left) <= 254 ==>
              WellFormed(r)
  {
    var q := p.left;
    var p' := FixHeight(p.(left := q.right));
    FixHeight(q.(right := p'))
  }

  /** `balance`. Because the balance factor is unsigned, `bf == -2` and
      `bfactor(node->right) < 0` are never true: those branches are proved
      unreachable, and only the single left rotation remains.
      The precondition rules out wrapped heights and the one case in which
      the source would rotate a node whose right child is null (left height
      254, right 0). */
  function Balance(t: Tree): (r: Tree)
    requires t.Node? && Height(t.left) <= 254 && Height(t.right) <= 254
    requires !(Height(t.left) == 254 && Height(t.right) == 0)
    ensures r.Node?
    ensures InOrder(r) == InOrder(t)
    ensures Keys(r) == Keys(t)
    ensures WellFormed(t.left) && WellFormed(t.right) ==>
              && WellFormed(r)
              && CountOf(r) == CountOf(t.left) + CountOf(t.right) + 1
              && Height(r) <= Max(Height(t.left), Height(t.right)) + 1
  {
    var n := FixHeight(t);
    var bf := BFactor(n);
    if bf == 2 then
      if BFactor(n.right) < 0 then assert false; n
      else RotateLeft(n)
    else if bf == -2 then
      assert false; n
    else
      n
  }

  // ---------------------------------------------------------------------
  // Order and bindings
  // ---------------------------------------------------------------------

  lemma RotateLeftKeepsBst(p: Tree)
    requires p.Node? && p.right.Node? && Bst(p)
    ensures Bst(RotateLeft(p))
  {
    var q, r := p.right, RotateLeft(p);
    assert forall x :: x in Keys(q.left) ==> p.key < x < q.key;
    BstOfLeftSpine(r);
  }

  /** A node over a left child, ordered key by key, is a search tree. */
  lemma BstOfLeftSpine(r: Tree)
    requires r.Node? && r.left.Node?
    requires Bst(r.left.left) && Bst(r.left.right) && Bst(r.right)
    requires forall x :: x in Keys(r.left.left) ==> x < r.left.key
    requires forall x :: x in Keys(r.left.right) ==> r.left.key < x < r.key
    requires forall x :: x in Keys(r.right) ==> r.key < x
    requires r.left.key < r.key
    ensures Bst(r)
  {
  }

  lemma RotateLeftKeepsOrder(p: Tree)
    requires p.Node? && p.right.Node? && Bst(p)
    ensures Bst(RotateLeft(p))
    ensures Bindings(RotateLeft(p)) == Bindings(p)
  {
    RotateLeftKeepsBst(p);
    var q, r := p.right, RotateLeft(p);
    BindingsDomain(p.left);
    BindingsDomain(q.left);
    BindingsDomain(q.right);
    forall x
      ensures x in Bindings(r) <==> x in Bindings(p)
      ensures x in Bindings(r) ==> Bindings(r)[x] == Bindings(p)[x]
    {
      if x < p.key {
        BindingsOfNode(r, x);
        BindingsOfNode(r.left, x);
        BindingsOfNode(p, x);
      } else if x == p.key {
        BindingsOfNode(r, x);
        BindingsOfNode(r.left, x);
        BindingsOfNode(p, x);
      } else if x < q.key {
        BindingsOfNode(r, x);
        BindingsOfNode(r.left, x);
        BindingsOfNode(p, x);
        BindingsOfNode(q, x);
      } else if x == q.key {
        BindingsOfNode(r, x);
        BindingsOfNode(p, x);
        BindingsOfNode(q, x);
      } else {
        BindingsOfNode(r, x);
        BindingsOfNode(p, x);
        BindingsOfNode(q, x);
      }
    }
  }

  lemma RotateRightKeepsBst(p: Tree)
    requires p.Node? && p.left.Node? && Bst(p)
    ensures Bst(RotateRight(p))
  {
    var q, r := p.left, RotateRight(p);
    assert forall x :: x in Keys(q.right) ==> q.key < x < p.key;
    BstOfRightSpine(r);
  }

  /** A node over a right child, ordered key by key, is a search tree. */
  lemma BstOfRightSpine(r: Tree)
    requires r.Node? && r.right.Node?
    requires Bst(r.left) && Bst(r.right.left) && Bst(r.right.right)
    requires forall x :: x in Keys(r.left) ==> x < r.key
    requires forall x :: x in Keys(r.right.left) ==> r.key < x < r.right.key
    requires forall x :: x in Keys(r.right.right) ==> r.right.key < x
    requires r.key < r.right.key
    ensures Bst(r)
  {
  }

  lemma RotateRightKeepsOrder(p: Tree)
    requires p.Node? && p.left.Node? && Bst(p)
    ensures Bst(RotateRight(p))
    ensures Bindings(RotateRight(p)) == Bindings(p)
  {
    RotateRightKeepsBst(p);
    var q, r := p.left, RotateRight(p);
    BindingsDomain(p.right);
    BindingsDomain(q.left);
    BindingsDomain(q.right);
    forall x
      ensures x in Bindings(r) <==> x in Bindings(p)
      ensures x in Bindings(r) ==> Bindings(r)[x] == Bindings(p)[x]
    {
      if x < q.key {
        BindingsOfNode(r, x);
        BindingsOfNode(p, x);
        BindingsOfNode(q, x);
      } else if x == q.key {
        BindingsOfNode(r, x);
        BindingsOfNode(p, x);
        BindingsOfNode(q, x);
      } else if x < p.key {
        BindingsOfNode(r, x);
        BindingsOfNode(r.right, x);
        BindingsOfNode(p, x);
        BindingsOfNode(q, x);
      } else if x == p.key {
        BindingsOfNode(r, x);
        BindingsOfNode(r.right, x);
        BindingsOfNode(p, x);
      } else {
        BindingsOfNode(r, x);
        BindingsOfNode(r.right, x);
        BindingsOfNode(p, x);
      }
    }
  }

  lemma BalanceKeepsOrder(t: Tree)
    requires t.Node? && Height(t.left) <= 254 && Height(t.right) <= 254
    requires !(Height(t.left) == 254 && Height(t.right) == 0) && Bst(t)
    ensures Bst(Balance(t))
    ensures Bindings(Balance(t)) == Bindings(t)
  {
    var n := FixHeight(t);
    assert Bst(n) && Bindings(n) == Bindings(t);
    if BFactor(n) == 2 {
      RotateLeftKeepsOrder(n);
    }
  }

  // ---------------------------------------------------------------------
  // What the unsigned balance factor leaves of the AVL rule
  // ---------------------------------------------------------------------

  /** `balance` rotates exactly when the right subtree is two levels taller
      than the left; a left-heavy node, however unbalanced, is never rotated. */
  lemma BalanceRotatesOnlyRightHeavy(t: Tree)
    requires t.Node? && Height(t.left) <= 254 && Height(t.right) <= 254
    requires !(Height(t.left) == 254 && Height(t.right) == 0)
    ensures Height(t.right) == Height(t.left) + 2 ==> Balance(t) == RotateLeft(FixHeight(t))
    ensures Height(t.right) != Height(t.left) + 2 ==> Balance(t) == FixHeight(t)
  {
    var n := FixHeight(t);
    assert Height(n.left) == Height(t.left) && Height(n.right) == Height(t.right);
  }

  /** With right-lean children and a right side at most two levels taller,
      `balance` yields a right-lean subtree whose height lies between the
      taller side and the height `fix_height` computes. */
  lemma BalanceKeepsLean(t: Tree)
    requires t.Node? && Height(t.left) <= 254 && Height(t.right) <= 254
    requires !(Height(t.left) == 254 && Height(t.right) == 0)
    requires WellFormed(t.left) && WellFormed(t.right) && RightLean(t.left) && RightLean(t.right)
    requires Height(t.right) <= Height(t.left) + 2
    ensures RightLean(Balance(t))
    ensures Max(Height(t.left) + 1, Height(t.right)) <= Height(Balance(t))
  {
    var n := FixHeight(t);
    BalanceRotatesOnlyRightHeavy(t);
    if Height(t.right) == Height(t.left) + 2 {
      var q := n.right;
      var r := RotateLeft(n);
      assert Height(q) == Max(Height(q.left), Height(q.right)) + 1;
      assert Height(r.left) == Max(Height(t.left), Height(q.left)) + 1;
      assert Height(r) == Max(Height(r.left), Height(q.right)) + 1;
    }
  }

  /** A node whose metadata is already right and that is right-lean is left
      exactly as it is. */
  lemma BalanceIdle(t: Tree)
    requires t.Node? && Height(t.left) <= 254 && Height(t.right) <= 254
    requires !(Height(t.left) == 254 && Height(t.right) == 0)
    requires WellFormed(t) && Height(t.right) <= Height(t.left) + 1
    ensures Balance(t) == t
  {
    BalanceRotatesOnlyRightHeavy(t);
  }
}
