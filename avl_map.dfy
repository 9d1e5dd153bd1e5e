/**
  `AVLTree<int, int>`: the map object. It owns `root` and keeps
  `nodes_count`; `insert` and `erase` reassign `root` to the subtree the
  recursive members return.
*/
module AvlTreeMap {
  import opened AvlNodes
  import opened AvlBalance
  import opened AvlOps

  class AvlTree {
    var root: Tree
    var nodesCount: nat

    /** The invariant every public member keeps. `WellFormed` says that no
        stored height has wrapped round, so the root is at most 255 tall. */
    ghost predicate Valid()
      reads this
    {
      && WellFormed(root) && Bst(root) && RightLean(root)
      && nodesCount == CountOf(root)
    }

    /** The map the object denotes. */
    ghost function Contents(): map<int, int>
      reads this
    {
      Bindings(root)
    }

    /** `AVLTree()`: an empty tree, `nodes_count` zero. */
    constructor ()
      ensures Valid()
      ensures root == Leaf && nodesCount == 0 && Contents() == map[]
    {
      root := Leaf;
      nodesCount := 0;
    }

    /** `find`: the value bound to `key`, or null. */
    method Find(key: int) returns (r: Option<int>)
      requires Valid()
      ensures r == if key in Contents() then Some(Contents()[key]) else None
    {
      FindAuxCorrect(key, root);
      r := FindAux(key, root);
    }

    /** `insert`: bind `key` to `val` unless `key` is already bound, in which
        case nothing changes at all. The height bound keeps the stored 8-bit
        heights from wrapping round and `balance` from rotating a node whose
        right child is null. */
    method Insert(key: int, val: int)
      requires Valid() && Height(root) <= 253
      modifies this
      ensures Valid()
      ensures key in old(Contents()) ==> Contents() == old(Contents())
      ensures key !in old(Contents()) ==> Contents() == old(Contents())[key := val]
      ensures nodesCount == old(nodesCount) + (if key in old(Contents()) then 0 else 1)
      ensures key in old(Contents()) ==> root == old(root)
      ensures Height(old(root)) <= Height(root) <= Height(old(root)) + 1
    {
      BindingsDomain(root);
      InsertAuxBindings(key, val, root);
      InsertAuxLean(key, val, root);
      if key in Keys(root) {
        InsertAuxPresent(key, val, root);
      }
      var (t, created) := InsertAux(key, val, root);
      if created {
        nodesCount := nodesCount + 1;
      }
      root := t;
    }

    /** `erase`: drop the binding of `key`; erasing an absent key changes
        nothing at all. The height bound keeps `balance` from reading a node
        with a 254-tall left side and a null right child as right-heavy. */
    method Erase(key: int)
      requires Valid() && Height(root) <= 254
      modifies this
      ensures Valid()
      ensures Contents() == old(Contents()) - {key}
      ensures nodesCount == old(nodesCount) - (if key in old(Contents()) then 1 else 0)
      ensures key !in old(Contents()) ==> root == old(root)
      ensures Height(old(root)) - 1 <= Height(root) <= Height(old(root))
    {
      BindingsDomain(root);
      EraseAuxBindings(key, root);
      EraseAuxLean(key, root);
      if key !in Keys(root) {
        EraseAuxAbsent(key, root);
      }
      var (t, removed) := EraseAux(key, root);
      if removed {
        CountNonNegative(root);
        nodesCount := nodesCount - 1;
      }
      root := t;
    }

    /** `size`: `nodes_count`, which is the number of bound keys. */
    method Size() returns (n: nat)
      requires Valid()
      ensures n == |Contents()|
    {
      CountIsKeyCount(root);
      BindingsDomain(root);
      n := nodesCount;
    }
  }
}
