/**
  The recursive members of `AVLTree` that walk the tree: `find_aux`,
  `insert_aux`, `erase_aux` and `find_remove_min`. Each returns the new
  subtree root; the increments and decrements that `insert_aux` and
  `erase_aux` make to `nodes_count` on the way are returned as a flag.
*/
module AvlOps {
  import opened AvlNodes
  import opened AvlBalance
  import opened DefComparator

  /** `find_aux`: descend by comparison; any answer other than -1 or 1 counts
      as equal. `None` plays the part of the null pointer. */
  function FindAux(key: int, t: Tree): (r: Option<int>)
    ensures r.Some? ==> key in Keys(t)
  {
    match t
    case Leaf => None
    case Node(k, v, l, rt, _, _) =>
      var res := Compare(key, k);
      if res == -1 then FindAux(key, l)
      else if res == 1 then FindAux(key, rt)
      else Some(v)
  }

  /** `insert_aux`: add a leaf where the descent falls off the tree (the flag
      says so: `nodes_count++`), leave an equal key alone, and `balance`
      every node on the way back. */
  function InsertAux(key: int, val: int, t: Tree): (r: (Tree, bool))
    requires WellFormed(t) && Height(t) <= 253
    ensures r.0.Node? && WellFormed(r.0)
    ensures Height(r.0) <= Height(t) + 1
    ensures Keys(r.0) == Keys(t) + {key}
    ensures CountOf(r.0) == CountOf(t) + (if r.1 then 1 else 0)
  {
    match t
    case Leaf => (Node(key, val, Leaf, Leaf, 1, 1), true)
    case Node(k, _, l, rt, _, _) =>
      var res := Compare(key, k);
      if res == -1 then
        var (l', created) := InsertAux(key, val, l);
        (Balance(t.(left := l')), created)
      else if res == 1 then
        var (r', created) := InsertAux(key, val, rt);
        (Balance(t.(right := r')), created)
      else
        (Balance(t), false)
  }

  /** `find_remove_min`: walk left to the node without a left child, hand it
      back (`*min = node`) and put its right subtree in its place; `balance`
      every node on the way back. */
  function FindRemoveMin(t: Tree): (r: (Tree, Tree))
    requires t.Node? && WellFormed(t) && Height(t) <= 254
    ensures WellFormed(r.0) && Height(r.0) <= Height(t)
    ensures r.1.Node? && r.1.left == Leaf
    ensures Keys(r.0) + {r.1.key} == Keys(t)
    ensures CountOf(r.0) == CountOf(t) - 1
  {
    if t.left.Leaf? then
      (t.right, t)
    else
      var (rest, m) := FindRemoveMin(t.left);
      (Balance(t.(left := rest)), m)
  }

  /** `erase_aux`: on an equal key, splice in the left child when there is
      no right child, and otherwise the minimum of the right subtree with
      the left child and the rest of the right subtree under it (the flag
      says a node went: `nodes_count--`); `balance` every node on the way. */
  function EraseAux(key: int, t: Tree): (r: (Tree, bool))
    requires WellFormed(t) && Height(t) <= 254
    ensures WellFormed(r.0) && Height(r.0) <= Height(t)
    ensures Keys(r.0) <= Keys(t)
    ensures r.1 ==> key in Keys(t)
    ensures CountOf(r.0) == CountOf(t) - (if r.1 then 1 else 0)
  {
    match t
    case Leaf => (Leaf, false)
    case Node(k, _, l, rt, _, _) =>
      var res := Compare(key, k);
      if res == -1 then
        var (l', removed) := EraseAux(key, l);
        (Balance(t.(left := l')), removed)
      else if res == 1 then
        var (r', removed) := EraseAux(key, rt);
        (Balance(t.(right := r')), removed)
      else if rt.Leaf? then
        (l, true)
      else
        var (rest, m) := FindRemoveMin(rt);
        (Balance(m.(right := rest, left := l)), true)
  }

  // ---------------------------------------------------------------------
  // Lookup
  // ---------------------------------------------------------------------

  /** On a search tree `find_aux` answers the lookup of the map the tree
      denotes: the stored value when the key is bound, null otherwise. */
  lemma {:induction false} FindAuxCorrect(key: int, t: Tree)
    requires Bst(t)
    ensures FindAux(key, t) == if key in Bindings(t) then Some(Bindings(t)[key]) else None
  {
    match t
    case Leaf =>
    case Node(k, _, l, rt, _, _) =>
      BindingsOfNode(t, key);
      if key < k {
        FindAuxCorrect(key, l);
      } else if k < key {
        FindAuxCorrect(key, rt);
      }
  }

  // ---------------------------------------------------------------------
  // Insertion
  // ---------------------------------------------------------------------

  /** Inserting keeps the search order and adds the binding exactly when the
      key was absent; a present key keeps its old value. */
  lemma {:induction false} InsertAuxBindings(key: int, val: int, t: Tree)
    requires WellFormed(t) && Height(t) <= 253 && Bst(t)
    ensures Bst(InsertAux(key, val, t).0)
    ensures InsertAux(key, val, t).1 <==> key !in Keys(t)
    ensures Bindings(InsertAux(key, val, t).0) ==
              if key in Bindings(t) then Bindings(t) else Bindings(t)[key := val]
  {
    BindingsDomain(t);
    match t
    case Leaf =>
    case Node(k, v, l, rt, _, _) =>
      if key < k {
        InsertAuxBindings(key, val, l);
        var l' := InsertAux(key, val, l).0;
        InsertBelow(key, val, t, l', t.(left := l'));
        BalanceKeepsOrder(t.(left := l'));
      } else if k < key {
        InsertAuxBindings(key, val, rt);
        var r' := InsertAux(key, val, rt).0;
        InsertBelow(key, val, t, r', t.(right := r'));
        BalanceKeepsOrder(t.(right := r'));
      } else {
        BalanceKeepsOrder(t);
      }
  }

  /** One step of the insertion proof: the node with the updated child on
      the key's side denotes the updated map. */
  lemma InsertBelow(key: int, val: int, t: Tree, c: Tree, t': Tree)
    requires t.Node? && Bst(t) && key != t.key
    requires t' == (if key < t.key then t.(left := c) else t.(right := c))
    requires var old_c := if key < t.key then t.left else t.right;
      && Bst(c) && Keys(c) == Keys(old_c) + {key}
      && Bindings(c) == if key in Bindings(old_c) then Bindings(old_c) else Bindings(old_c)[key := val]
    ensures Bst(t')
    ensures Bindings(t') == if key in Bindings(t) then Bindings(t) else Bindings(t)[key := val]
  {
    var expected := if key in Bindings(t) then Bindings(t) else Bindings(t)[key := val];
    BindingsDomain(t.left);
    BindingsDomain(t.right);
    BindingsDomain(c);
    assert Bst(t');
    forall x
      ensures x in Bindings(t') <==> x in expected
      ensures x in Bindings(t') ==> Bindings(t')[x] == expected[x]
    {
      BindingsOfNode(t, x);
      BindingsOfNode(t', x);
    }
  }

  /** Inserting keeps every node right-lean and never lowers the tree. */
  lemma {:induction false} InsertAuxLean(key: int, val: int, t: Tree)
    requires WellFormed(t) && Height(t) <= 253 && RightLean(t)
    ensures RightLean(InsertAux(key, val, t).0)
    ensures Height(t) <= Height(InsertAux(key, val, t).0)
  {
    match t
    case Leaf =>
    case Node(k, _, l, rt, _, _) =>
      var res := Compare(key, k);
      if res == -1 {
        InsertAuxLean(key, val, l);
        BalanceKeepsLean(t.(left := InsertAux(key, val, l).0));
      } else if res == 1 {
        InsertAuxLean(key, val, rt);
        BalanceKeepsLean(t.(right := InsertAux(key, val, rt).0));
      } else {
        BalanceIdle(t);
      }
  }

  /** Inserting a key that is already there returns the very same tree. */
  lemma {:induction false} InsertAuxPresent(key: int, val: int, t: Tree)
    requires WellFormed(t) && Height(t) <= 253 && Bst(t) && RightLean(t)
    requires key in Keys(t)
    ensures InsertAux(key, val, t) == (t, false)
  {
    match t
    case Node(k, _, l, rt, _, _) =>
      if key < k {
        InsertAuxPresent(key, val, l);
        assert t.(left := l) == t;
        BalanceIdle(t);
      } else if k < key {
        InsertAuxPresent(key, val, rt);
        assert t.(right := rt) == t;
        BalanceIdle(t);
      } else {
        BalanceIdle(t);
      }
  }

  // ---------------------------------------------------------------------
  // Removal of the minimum
  // ---------------------------------------------------------------------

  /** `find_remove_min` hands back the node holding the smallest key, and the
      remaining tree holds exactly the other bindings, still in order. */
  lemma {:induction false} FindRemoveMinBindings(t: Tree)
    requires t.Node? && WellFormed(t) && Height(t) <= 254 && Bst(t)
    ensures MinRemoved(t, FindRemoveMin(t).0, FindRemoveMin(t).1)
  {
    if t.left.Leaf? {
      BindingsDomain(t.right);
      assert Bindings(t) == Bindings(t.right)[t.key := t.value];
    } else {
      FindRemoveMinBindings(t.left);
      var (rest', m) := FindRemoveMin(t.left);
      RemoveMinBelow(t, rest', m);
    }
  }

  /** `m` holds the smallest key of `t`, and `rest` exactly the other
      bindings, in search order. */
  ghost predicate MinRemoved(t: Tree, rest: Tree, m: Tree) {
    && m.Node?
    && (forall x :: x in Keys(t) ==> m.key <= x)
    && m.key !in Keys(rest)
    && Bst(rest)
    && m.key in Bindings(t) && Bindings(t)[m.key] == m.value
    && Bindings(rest) == Bindings(t) - {m.key}
  }

  /** One step of the proof of `FindRemoveMinBindings`: the minimum of the
      left subtree is the minimum of the node. */
  lemma RemoveMinBelow(t: Tree, rest': Tree, m: Tree)
    requires t.Node? && t.left.Node? && Bst(t) && Height(t.right) <= 253 && Height(rest') <= 253
    requires MinRemoved(t.left, rest', m) && Keys(rest') + {m.key} == Keys(t.left)
    ensures MinRemoved(t, Balance(t.(left := rest')), m)
  {
    BindingsDomain(t.left);
    var t' := t.(left := rest');
    RemoveBelow(m.key, t, rest', t');
    BalanceKeepsOrder(t');
    BindingsOfNode(t, m.key);
  }

  /** Removing the minimum keeps every node right-lean and lowers the tree
      by at most one level. */
  lemma {:induction false} FindRemoveMinLean(t: Tree)
    requires t.Node? && WellFormed(t) && Height(t) <= 254 && RightLean(t)
    ensures RightLean(FindRemoveMin(t).0)
    ensures Height(t) - 1 <= Height(FindRemoveMin(t).0)
  {
    if !t.left.Leaf? {
      FindRemoveMinLean(t.left);
      BalanceKeepsLean(t.(left := FindRemoveMin(t.left).0));
    }
  }

  // ---------------------------------------------------------------------
  // Erasure
  // ---------------------------------------------------------------------

  /** Erasing removes exactly the binding of the key, if any, and keeps the
      search order; the flag (`nodes_count--`) is raised exactly when the key
      was present. */
  lemma {:induction false} EraseAuxBindings(key: int, t: Tree)
    requires WellFormed(t) && Height(t) <= 254 && Bst(t)
    ensures Bst(EraseAux(key, t).0)
    ensures EraseAux(key, t).1 <==> key in Keys(t)
    ensures Bindings(EraseAux(key, t).0) == Bindings(t) - {key}
  {
    BindingsDomain(t);
    match t
    case Leaf =>
    case Node(k, v, l, rt, _, _) =>
      if key < k {
        EraseAuxBindings(key, l);
        var l' := EraseAux(key, l).0;
        RemoveBelow(key, t, l', t.(left := l'));
        BalanceKeepsOrder(t.(left := l'));
      } else if k < key {
        EraseAuxBindings(key, rt);
        var r' := EraseAux(key, rt).0;
        RemoveBelow(key, t, r', t.(right := r'));
        BalanceKeepsOrder(t.(right := r'));
      } else if rt.Leaf? {
        LeftReplaces(t);
      } else {
        FindRemoveMinBindings(rt);
        var (rest, m) := FindRemoveMin(rt);
        SuccessorReplaces(t, rest, m);
        BalanceKeepsOrder(m.(right := rest, left := l));
      }
  }

  /** One step of the removal proofs: the node with the child on the key's
      side replaced by that child minus the key denotes the map minus the key. */
  lemma RemoveBelow(key: int, t: Tree, c: Tree, t': Tree)
    requires t.Node? && Bst(t) && key != t.key
    requires t' == (if key < t.key then t.(left := c) else t.(right := c))
    requires var old_c := if key < t.key then t.left else t.right;
      && Bst(c) && Keys(c) <= Keys(old_c) && Bindings(c) == Bindings(old_c) - {key}
    ensures Bst(t')
    ensures Bindings(t') == Bindings(t) - {key}
  {
    BindingsDomain(t.left);
    BindingsDomain(t.right);
    BindingsDomain(c);
    assert Bst(t');
    forall x
      ensures x in Bindings(t') <==> x in Bindings(t) - {key}
      ensures x in Bindings(t') ==> Bindings(t')[x] == Bindings(t)[x]
    {
      BindingsOfNode(t, x);
      BindingsOfNode(t', x);
    }
  }

  /** The erase step for a node without a right child: its left child
      denotes the map without the node's key. */
  lemma LeftReplaces(t: Tree)
    requires t.Node? && t.right.Leaf? && Bst(t)
    ensures Bindings(t.left) == Bindings(t) - {t.key}
  {
    BindingsDomain(t.left);
    forall x
      ensures x in Bindings(t.left) <==> x in Bindings(t) - {t.key}
      ensures x in Bindings(t.left) ==> Bindings(t.left)[x] == Bindings(t)[x]
    {
      BindingsOfNode(t, x);
    }
  }

  /** The erase step for a node with a right child: its in-order successor,
      over the left child and the rest of the right subtree, denotes the map
      without the node's key. */
  lemma SuccessorReplaces(t: Tree, rest: Tree, m: Tree)
    requires t.Node? && Bst(t)
    requires MinRemoved(t.right, rest, m) && Keys(rest) + {m.key} == Keys(t.right)
    ensures Bst(m.(right := rest, left := t.left))
    ensures Bindings(m.(right := rest, left := t.left)) == Bindings(t) - {t.key}
  {
    var t' := m.(right := rest, left := t.left);
    assert Bst(t') by {
      assert t.key < m.key;
      assert forall x :: x in Keys(rest) ==> m.key < x;
      assert forall x :: x in Keys(t.left) ==> x < m.key;
    }
    BindingsDomain(t.left);
    forall x
      ensures x in Bindings(t') <==> x in Bindings(t) - {t.key}
      ensures x in Bindings(t') ==> Bindings(t')[x] == Bindings(t)[x]
    {
      BindingsOfNode(t, x);
      BindingsOfNode(t', x);
    }
  }

  /** Erasing keeps every node right-lean and lowers the tree by at most one
      level. */
  lemma {:induction false} EraseAuxLean(key: int, t: Tree)
    requires WellFormed(t) && Height(t) <= 254 && RightLean(t)
    ensures RightLean(EraseAux(key, t).0)
    ensures Height(t) - 1 <= Height(EraseAux(key, t).0)
  {
    match t
    case Leaf =>
    case Node(k, _, l, rt, _, _) =>
      var res := Compare(key, k);
      if res == -1 {
        EraseAuxLean(key, l);
        BalanceKeepsLean(t.(left := EraseAux(key, l).0));
      } else if res == 1 {
        EraseAuxLean(key, rt);
        BalanceKeepsLean(t.(right := EraseAux(key, rt).0));
      } else if !rt.Leaf? {
        FindRemoveMinLean(rt);
        var (rest, m) := FindRemoveMin(rt);
        BalanceKeepsLean(m.(right := rest, left := l));
      }
  }

  /** Erasing a key that is not there returns the very same tree. */
  lemma {:induction false} EraseAuxAbsent(key: int, t: Tree)
    requires WellFormed(t) && Height(t) <= 254 && Bst(t) && RightLean(t)
    requires key !in Keys(t)
    ensures EraseAux(key, t) == (t, false)
  {
    match t
    case Leaf =>
    case Node(k, _, l, rt, _, _) =>
      if key < k {
        EraseAuxAbsent(key, l);
        assert t.(left := l) == t;
        BalanceIdle(t);
      } else {
        EraseAuxAbsent(key, rt);
        assert t.(right := rt) == t;
        BalanceIdle(t);
      }
  }

  // ---------------------------------------------------------------------
  // Consequences of the unsigned balance factor
  // ---------------------------------------------------------------------

  /** Inserting three keys in descending order yields a chain hanging to the
      left, three levels tall where an AVL tree would have two: the left-heavy
      case is never rotated. */
  lemma DescendingInsertsLeanLeft(a: int, b: int, c: int)
    requires a < b < c
    ensures var t := InsertAux(a, a, InsertAux(b, b, InsertAux(c, c, Leaf).0).0).0;
      && InOrder(t) == [(a, a), (b, b), (c, c)]
      && Height(t) == 3 && Height(t.left) == 2 && t.right == Leaf
  {
    var t1 := Node(c, c, Leaf, Leaf, 1, 1);
    assert InsertAux(c, c, Leaf).0 == t1;
    InsertBelowLeaf(b, c);
    var t2 := Node(c, c, Node(b, b, Leaf, Leaf, 1, 1), Leaf, 2, 2);
    var l := Node(b, b, Node(a, a, Leaf, Leaf, 1, 1), Leaf, 2, 2);
    assert WellFormed(t2);
    InsertBelowLeaf(a, b);
    assert InsertAux(a, a, t2).0 == Balance(t2.(left := l));
    BalanceRotatesOnlyRightHeavy(t2.(left := l));
    var t3 := Node(c, c, l, Leaf, 3, 3);
    assert InsertAux(a, a, t2).0 == t3;
    assert InOrder(l) == [(a, a), (b, b)];
    assert InOrder(t3) == [(a, a), (b, b)] + [(c, c)];
  }

  /** Inserting a smaller key below a single node hangs it on the left. */
  lemma InsertBelowLeaf(key: int, k: int)
    requires key < k
    ensures WellFormed(Node(k, k, Leaf, Leaf, 1, 1))
    ensures InsertAux(key, key, Node(k, k, Leaf, Leaf, 1, 1)).0
         == Node(k, k, Node(key, key, Leaf, Leaf, 1, 1), Leaf, 2, 2)
  {
    var t := Node(k, k, Leaf, Leaf, 1, 1);
    assert Height(Leaf) == 0 && CountOf(Leaf) == 0 && Max(0, 0) == 0;
    assert WellFormed(t);
    var n := t.(left := Node(key, key, Leaf, Leaf, 1, 1));
    assert InsertAux(key, key, t).0 == Balance(n);
    BalanceRotatesOnlyRightHeavy(n);
  }

  /** Outside the height bound: a node whose left subtree is 254 levels tall
      and whose right child is null gets the 8-bit balance factor 2, so the
      source's `balance` would go on to `bfactor(node->right)` and
      `rotate_left` with a null right child. */
  lemma LeftHeight254ReachesNullRotation(k: int, v: int, l: Tree)
    requires WellFormed(l) && Height(l) == 254
    ensures var n := FixHeight(Node(k, v, l, Leaf, 1, 1));
      BFactor(n) == 2 && n.right == Leaf && WellFormed(n) && Height(n) == 255
  {
  }

  /** A left subtree 254 tall over a right subtree one level tall reads
      balance factor 3, so `balance` returns the node as `fix_height` left
      it: a well-formed tree 255 levels tall. */
  lemma LeftHeight254ReachesHeight255(k: int, v: int, l: Tree, r: Tree)
    requires WellFormed(l) && Height(l) == 254 && WellFormed(r) && Height(r) == 1
    ensures var t := Node(k, v, l, r, 1, 1);
      && BFactor(FixHeight(t)) == 3
      && Balance(t) == FixHeight(t)
      && WellFormed(Balance(t)) && Height(Balance(t)) == 255
  {
    BalanceRotatesOnlyRightHeavy(Node(k, v, l, r, 1, 1));
  }
}
