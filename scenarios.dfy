/**
  Client runs of the map: the sequence of the test left commented out in
  `main`, and the duplicate-insert and empty-erase cases. Each is proved
  from the contracts of `AvlTree` alone.
*/
module AvlScenarios {
  import opened AvlNodes
  import opened AvlTreeMap

  /** Insert 0..99, each found right after its insertion; then erase 0..99,
      each found before and missing after its erasure; the tree ends empty. */
  method InsertThenEraseHundred() returns (finalSize: nat)
    ensures finalSize == 0
  {
    var tree := new AvlTree();
    InsertAscending(tree);
    EraseAscending(tree);
    finalSize := tree.Size();
  }

  /** The first loop of the test: after inserting `i`, `find(i)` gives `i`. */
  method InsertAscending(tree: AvlTree)
    requires tree.Valid() && tree.Contents() == map[]
    modifies tree
    ensures tree.Valid() && tree.nodesCount == 100
    ensures forall j :: j in tree.Contents() <==> 0 <= j < 100
    ensures forall j :: j in tree.Contents() ==> tree.Contents()[j] == j
  {
    CountIsKeyCount(tree.root);
    for i := 0 to 100
      invariant tree.Valid() && tree.nodesCount == i
      invariant forall j :: j in tree.Contents() <==> 0 <= j < i
      invariant forall j :: j in tree.Contents() ==> tree.Contents()[j] == j
    {
      InsertNext(tree, i);
    }
  }

  /** One round of the first loop. */
  method InsertNext(tree: AvlTree, i: nat)
    requires tree.Valid() && tree.nodesCount == i < 100
    requires forall j :: j in tree.Contents() <==> 0 <= j < i
    requires forall j :: j in tree.Contents() ==> tree.Contents()[j] == j
    modifies tree
    ensures tree.Valid() && tree.nodesCount == i + 1
    ensures forall j :: j in tree.Contents() <==> 0 <= j < i + 1
    ensures forall j :: j in tree.Contents() ==> tree.Contents()[j] == j
  {
    HeightAtMostCount(tree.root);
    tree.Insert(i, i);
    var found := tree.Find(i);
    assert found == Some(i);
  }

  /** The second loop of the test: `find(i)` gives `i` until `i` is erased,
      and null afterwards; `size()` ends at 0. */
  method EraseAscending(tree: AvlTree)
    requires tree.Valid() && tree.nodesCount == 100
    requires forall j :: j in tree.Contents() <==> 0 <= j < 100
    requires forall j :: j in tree.Contents() ==> tree.Contents()[j] == j
    modifies tree
    ensures tree.Valid() && tree.Contents() == map[]
  {
    for i := 0 to 100
      invariant tree.Valid() && tree.nodesCount == 100 - i
      invariant forall j :: j in tree.Contents() <==> i <= j < 100
      invariant forall j :: j in tree.Contents() ==> tree.Contents()[j] == j
    {
      EraseNext(tree, i);
    }
  }

  /** One round of the second loop. */
  method EraseNext(tree: AvlTree, i: nat)
    requires tree.Valid() && tree.nodesCount == 100 - i && i < 100
    requires forall j :: j in tree.Contents() <==> i <= j < 100
    requires forall j :: j in tree.Contents() ==> tree.Contents()[j] == j
    modifies tree
    ensures tree.Valid() && tree.nodesCount == 100 - (i + 1)
    ensures forall j :: j in tree.Contents() <==> i + 1 <= j < 100
    ensures forall j :: j in tree.Contents() ==> tree.Contents()[j] == j
  {
    HeightAtMostCount(tree.root);
    var before := tree.Find(i);
    assert before == Some(i);
    tree.Erase(i);
    var after := tree.Find(i);
    assert after == None;
  }

  /** A second insert of a present key does not replace its value. */
  method DuplicateInsert() returns (found: Option<int>, size: nat)
    ensures found == Some(5) && size == 1
  {
    var tree := new AvlTree();
    tree.Insert(5, 5);
    tree.Insert(5, 99);
    found := tree.Find(5);
    size := tree.Size();
  }

  /** Erasing from an empty map leaves it empty. */
  method EraseFromEmpty() returns (size: nat)
    ensures size == 0
  {
    var tree := new AvlTree();
    tree.Erase(7);
    size := tree.Size();
  }
}
