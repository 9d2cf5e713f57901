/**
 * The insertion scenario of the repository's tests, stated on the model: five
 * insertions that need no rotation, then one that rotates right at the root.
 * ScenarioTrees proves which trees AvlInsert gives; AvlScenario performs the
 * insertions on a SearchTree and proves what the arena then holds.
 */
module ScenarioTrees {
  import opened Shape
  import opened Balance

  /** Inserting below the left child, when the grown child stays within one level of its sibling: no rotation. */
  lemma InsertLeft(l: Tree, k: nat, x: int, r: Tree, v: int, n: nat)
    requires v < x && -1 <= Height(AvlInsert(l, v, n)) - Height(r) <= 1
    ensures AvlInsert(Br(l, k, x, r), v, n) == Br(AvlInsert(l, v, n), k, x, r)
  {
  }

  /** The mirror image of InsertLeft. */
  lemma InsertRight(l: Tree, k: nat, x: int, r: Tree, v: int, n: nat)
    requires x < v && -1 <= Height(l) - Height(AvlInsert(r, v, n)) <= 1
    ensures AvlInsert(Br(l, k, x, r), v, n) == Br(l, k, x, AvlInsert(r, v, n))
  {
  }

  /** Inserting below the left child, which grows two levels above its sibling and leans left: a right rotation. */
  lemma InsertLeftRotateRight(l: Tree, k: nat, x: int, r: Tree, v: int, n: nat)
    requires v < x && Height(AvlInsert(l, v, n)) - Height(r) == 2 && Bf(AvlInsert(l, v, n)) == 1
    ensures AvlInsert(Br(l, k, x, r), v, n) == RotR(Br(AvlInsert(l, v, n), k, x, r))
  {
  }

  const T1: Tree := Br(Nil, 0, 20, Nil)
  const T2: Tree := Br(Br(Nil, 1, 11, Nil), 0, 20, Nil)
  const T3: Tree := Br(Br(Nil, 1, 11, Nil), 0, 20, Br(Nil, 2, 25, Nil))
  const T4: Tree := Br(Br(Nil, 1, 11, Br(Nil, 3, 12, Nil)), 0, 20, Br(Nil, 2, 25, Nil))
  const T5: Tree := Br(Br(Br(Nil, 4, 8, Nil), 1, 11, Br(Nil, 3, 12, Nil)), 0, 20, Br(Nil, 2, 25, Nil))
  const T6: Tree := Br(Br(Br(Nil, 5, 7, Nil), 4, 8, Nil), 1, 11, Br(Br(Nil, 3, 12, Nil), 0, 20, Br(Nil, 2, 25, Nil)))

  /** The first three insertions fill the two child slots of the root. */
  lemma FirstThree()
    ensures AvlInsert(Nil, 20, 0) == T1 && AvlInsert(T1, 11, 1) == T2 && AvlInsert(T2, 25, 2) == T3
  {
    InsertLeft(Nil, 0, 20, Nil, 11, 1);
    InsertRight(Br(Nil, 1, 11, Nil), 0, 20, Nil, 25, 2);
  }

  /** The fourth insertion: 12 goes right of 11, and the root leans left by one. */
  lemma Fourth()
    ensures AvlInsert(T3, 12, 3) == T4
  {
    InsertRight(Nil, 1, 11, Nil, 12, 3);
    InsertLeft(Br(Nil, 1, 11, Nil), 0, 20, Br(Nil, 2, 25, Nil), 12, 3);
  }

  /** The fifth insertion: 8 goes left of 11, and the root still leans left by one. */
  lemma Fifth()
    ensures AvlInsert(T4, 8, 4) == T5
  {
    InsertLeft(Nil, 1, 11, Br(Nil, 3, 12, Nil), 8, 4);
    InsertLeft(Br(Nil, 1, 11, Br(Nil, 3, 12, Nil)), 0, 20, Br(Nil, 2, 25, Nil), 8, 4);
  }

  /** The sixth insertion: 7 goes left of 8, the root leans left by two and rotates right. */
  lemma Sixth()
    ensures AvlInsert(T5, 7, 5) == T6
  {
    InsertLeft(Nil, 4, 8, Nil, 7, 5);
    InsertLeft(Br(Nil, 4, 8, Nil), 1, 11, Br(Nil, 3, 12, Nil), 7, 5);
    InsertLeftRotateRight(Br(Br(Nil, 4, 8, Nil), 1, 11, Br(Nil, 3, 12, Nil)), 0, 20, Br(Nil, 2, 25, Nil), 7, 5);
  }

  /** None of the insertions finds its value already stored. */
  lemma FreshValues()
    ensures 11 !in Values(T1) && 25 !in Values(T2) && 12 !in Values(T3)
    ensures 8 !in Values(T4) && 7 !in Values(T5)
  {
  }

  /** The in-order sequence of T5. */
  lemma InOrderFive()
    ensures InOrder(T5) == [8, 11, 12, 20, 25]
  {
    assert InOrder(Br(Br(Nil, 4, 8, Nil), 1, 11, Br(Nil, 3, 12, Nil))) == [8, 11, 12];
  }
}

module AvlScenario {
  import opened Wrappers
  import opened Shape
  import opened Balance
  import opened Arena
  import opened AvlTree
  import opened Relink
  import opened AvlIter
  import opened ScenarioTrees

  /** The values at handles 0 to 4 of an arena storing T5. */
  method ValuesOfFive(nodes: seq<Node>) returns (vs: seq<int>)
    requires Linked(nodes, T5, None)
    ensures vs == [20, 11, 25, 12, 8]
  {
    var l := Br(Br(Nil, 4, 8, Nil), 1, 11, Br(Nil, 3, 12, Nil));
    assert Linked(nodes, l, Some(0)) && Linked(nodes, Br(Nil, 2, 25, Nil), Some(0));
    assert Linked(nodes, Br(Nil, 4, 8, Nil), Some(1)) && Linked(nodes, Br(Nil, 3, 12, Nil), Some(1));
    vs := [nodes[0].value, nodes[1].value, nodes[2].value, nodes[3].value, nodes[4].value];
  }

  /** The cached height of node 4 (holding 8) once the tree is T6: the height of its subtree there. */
  method HeightOfFour(tree: SearchTree) returns (h: int)
    requires tree.Valid() && tree.shape == T6
    ensures h == 1
  {
    ghost var z := [HoleLeft(1, 11, Br(Br(Nil, 3, 12, Nil), 0, 20, Br(Nil, 2, 25, Nil)))];
    ghost var a := Br(Br(Nil, 5, 7, Nil), 4, 8, Nil);
    assert Plug(z, a) == T6;
    Locate(tree.nodes, tree.root, z, a);
    h := tree.nodes[4].height;
  }

  /**
   * One insertion of a value not yet stored, whose resulting tree is known
   * to be `after`; afterwards every node passes is_balanced.
   */
  method InsertNew(tree: SearchTree, v: int, ghost after: Tree)
    requires tree.Valid() && v !in Values(tree.shape) && AvlInsert(tree.shape, v, |tree.nodes|) == after
    modifies tree
    ensures tree.Valid() && tree.shape == after && |tree.nodes| == old(|tree.nodes|) + 1
    ensures forall k | 0 <= k < |tree.nodes| ::
      (tree.nodes[k].leftChild.Some? ==> tree.nodes[k].leftChild.value < |tree.nodes|) &&
      (tree.nodes[k].rightChild.Some? ==> tree.nodes[k].rightChild.value < |tree.nodes|) &&
      IsBalanced(tree.nodes, k)
  {
    tree.Insert(v);
    AllBalanced(tree.nodes, tree.root, tree.shape);
  }

  /** Every value inserted into T5 is found by contains. */
  method ContainsFive(tree: SearchTree) returns (all: bool)
    requires tree.Valid() && tree.shape == T5
    ensures all
  {
    assert 20 in Values(T5) && 11 in Values(T5) && 25 in Values(T5) && 12 in Values(T5) && 8 in Values(T5);
    var c20 := tree.Contains(20);
    var c11 := tree.Contains(11);
    var c25 := tree.Contains(25);
    var c12 := tree.Contains(12);
    var c8 := tree.Contains(8);
    all := c20 && c11 && c25 && c12 && c8;
  }

  /** Inserting 20, 11, 25, 12 and 8 into an empty tree gives T5. */
  method BuildFive() returns (tree: SearchTree)
    ensures fresh(tree) && tree.Valid() && tree.shape == T5 && |tree.nodes| == 5
  {
    tree := new SearchTree();
    FreshValues();
    FirstThree();
    InsertNew(tree, 20, T1);
    InsertNew(tree, 11, T2);
    InsertNew(tree, 25, T3);
    Fourth();
    InsertNew(tree, 12, T4);
    Fifth();
    InsertNew(tree, 8, T5);
  }

  /** Draining an iterator over a stored search tree yields the tree's in-order sequence. */
  method Drain(nodes: seq<Node>, root: Option<nat>, ghost shape: Tree) returns (sorted: seq<int>)
    requires Shaped(nodes, root, shape)
    ensures sorted == InOrder(shape)
  {
    var it := new SearchTreeIter(nodes, root, shape);
    sorted := [];
    var next := it.Next();
    while next.Some?
      invariant it.Valid()
      invariant next.Some? ==> sorted + [next.value] + it.remaining == InOrder(shape)
      invariant next.None? ==> sorted == InOrder(shape)
      decreases |it.remaining| + if next.Some? then 1 else 0
    {
      sorted := sorted + [next.value];
      next := it.Next();
    }
  }

  /** Inserting 7 into T5 rotates right at the root and leaves node 4 (holding 8) at height 1. */
  method InsertSeven(tree: SearchTree) returns (heightOfFour: int)
    requires tree.Valid() && tree.shape == T5 && |tree.nodes| == 5
    modifies tree
    ensures heightOfFour == 1
  {
    FreshValues();
    Sixth();
    InsertNew(tree, 7, T6);
    heightOfFour := HeightOfFour(tree);
  }

  /**
   * Inserting 20, 11, 25, 12 and 8 into an empty tree leaves it non-empty,
   * keeps node 0 (holding 20) at the root and every value at the handle of
   * its insertion order, finds every value, and iteration yields the values
   * sorted; inserting 7 afterwards rotates right at the root and leaves node
   * 4 (holding 8) at height 1.
   */
  method InsertScenario() returns (emptyAfterFive: bool, rootAfterFive: Option<nat>, valuesAfterFive: seq<int>,
                                   containsAll: bool, sorted: seq<int>, heightOfFour: int)
    ensures !emptyAfterFive && containsAll
    ensures rootAfterFive == Some(0)
    ensures valuesAfterFive == [20, 11, 25, 12, 8]
    ensures sorted == [8, 11, 12, 20, 25]
    ensures heightOfFour == 1
  {
    var tree := BuildFive();
    emptyAfterFive := tree.IsEmpty();
    rootAfterFive := tree.root;
    containsAll := ContainsFive(tree);
    valuesAfterFive := ValuesOfFive(tree.nodes);
    sorted := Drain(tree.nodes, tree.root, tree.shape);
    InOrderFive();
    heightOfFour := InsertSeven(tree);
  }
}
