/**
 * The AVL tree kept in a node arena: `nodes` is the arena, `root` the handle
 * of the root node. The ghost field `shape` is the algebraic tree the arena
 * stores; every operation is specified against it.
 */
module AvlTree {
  import opened Wrappers
  import opened Shape
  import opened Balance
  import opened Arena
  import opened Surgery
  import opened Relink

  class SearchTree {
    var nodes: seq<Node>
    var root: Option<nat>
    ghost var shape: Tree

    /** The arena stores `shape` with correct heights, and `shape` is an AVL tree. */
    ghost predicate Valid()
      reads this
    {
      Repr(nodes, root, shape) && Balanced(shape)
    }

    /** The set of values stored in the tree. */
    ghost function Contents(): set<int>
      reads this
    {
      Values(shape)
    }

    /** An empty tree: no nodes and no root. */
    constructor()
      ensures Valid() && nodes == [] && root == None && Contents() == {}
    {
      nodes := [];
      root := None;
      shape := Nil;
    }

    /** A tree is empty when it has no root, which is when it stores no value and has no nodes. */
    function IsEmpty(): (b: bool)
      reads this
      requires Valid()
      ensures b <==> Contents() == {}
      ensures b <==> nodes == []
    {
      assert shape.Br? ==> shape.value in Values(shape) && shape.idx in Indices(shape);
      assert shape.Nil? ==> 0 !in Indices(shape);
      root.None?
    }

    /**
     * Insert `value`: nothing happens when it is already stored. Otherwise a
     * leaf holding it is appended to the arena under the next free handle and
     * attached where the search stopped (it becomes the root of an empty
     * tree), the heights above it are recomputed, and the walk from the leaf
     * up to the root rebalances every node found out of balance. The result
     * is the AVL insertion of `value` into the old tree; no stored value
     * changes its handle.
     */
    method Insert(value: int)
      requires Valid()
      modifies this
      ensures Valid()
      ensures Contents() == old(Contents()) + {value}
      ensures value in old(Contents()) ==> nodes == old(nodes) && root == old(root) && shape == old(shape)
      ensures value !in old(Contents()) ==>
        shape == AvlInsert(old(shape), value, |old(nodes)|) &&
        |nodes| == |old(nodes)| + 1 && nodes[|old(nodes)|].value == value &&
        forall k | 0 <= k < |old(nodes)| :: nodes[k].value == old(nodes)[k].value
      ensures old(nodes) == [] ==> root == Some(0)
    {
      ghost var a, told, n := nodes, shape, |nodes|;
      var node;
      ghost var z;
      node, z := CreateNode(value);
      if node.None? {
        return;
      }
      nodes := nodes + [node.value];
      if |nodes| == 1 {
        root := Some(0);
      }
      var lastAdded := |nodes| - 1;
      AttachLeaf(a, old(root), z, value);
      ghost var leaf := Br(Nil, n, value, Nil);
      shape := Plug(z, leaf);
      UpdateHeights(lastAdded, z, leaf);
      WalkStart(told, value, n, z);
      Retrace(lastAdded, told, value, n, z);
      AvlInsertKeeps(told, value, n);
      AvlInsertBalanced(told, value, n);
    }

    /**
     * The rebalancing walk of an insertion: from the new leaf `start` up to
     * the root, each node found out of balance is rebalanced, and the walk
     * continues from the parent of the node that ends up at its place. The
     * result is the AVL insertion of `value` into the tree before the leaf
     * was attached.
     */
    method Retrace(start: nat, ghost told: Tree, ghost value: int, ghost n: nat, ghost z: Path)
      requires Repr(nodes, root, shape) && Balanced(told) && start == n
      requires shape == Plug(z, Br(Nil, n, value, Nil)) && Walk(told, value, n, z, Br(Nil, n, value, Nil), Nil, false)
      modifies this
      ensures Repr(nodes, root, shape) && shape == AvlInsert(told, value, n)
      ensures |nodes| == |old(nodes)| && forall k | 0 <= k < |nodes| :: nodes[k].value == old(nodes)[k].value
    {
      var index: Option<nat> := Some(start);
      ghost var zc, s, tz, pending := z, Br(Nil, n, value, Nil), Nil, false;
      while index.Some?
        invariant Repr(nodes, root, shape) && |nodes| == |old(nodes)|
        invariant forall k | 0 <= k < |nodes| :: nodes[k].value == old(nodes)[k].value
        invariant index.Some? ==> index == Top(s) && shape == Plug(zc, s) && Walk(told, value, n, zc, s, tz, pending)
        invariant index.None? ==> shape == AvlInsert(told, value, n)
        decreases if index.None? then 0 else |zc| + 1, if pending then 1 else 0
      {
        var k := index.value;
        TopRecord(nodes, root, zc, s);
        if !IsBalanced(nodes, k) {
          var ok := Rebalance(k, zc, s);
          WalkRebalance(told, value, n, zc, s, tz, pending);
          assert ok;
          LoweredTop(nodes, root, zc, s);
          s, pending := Rebal(s), false;
          index := nodes[k].parent;
        } else {
          WalkBalanced(told, value, n, zc, s, tz, pending);
          index := nodes[k].parent;
          if zc != [] {
            WalkUp(told, value, n, zc, s, tz);
            zc, s, tz, pending := zc[1..], Fill(zc[0], s), Fill(zc[0], tz), true;
          } else {
            WalkDone(told, value, n, s, tz);
          }
        }
      }
    }

    /**
     * Search for `value` from the root. The result is the handle of the node
     * holding `value` when there is one, and otherwise the handle of the last
     * node visited, below which `value` would be attached (None for an empty
     * tree). That node holds `value`'s in-order neighbour on the side of its
     * empty slot: the least stored value above `value` when the slot is a left
     * one, the greatest below it when the slot is a right one. The ghost
     * results locate the search's end: `t` is the subtree at the handle found
     * or the empty slot where the search stopped.
     */
    method GetNode(value: int) returns (found: Option<nat>, ghost z: Path, ghost t: Tree)
      requires Valid()
      ensures shape == Plug(z, t) && Admits(z, value)
      ensures t.Br? ==> t.value == value && found == Some(t.idx)
      ensures t.Nil? ==> found == HoleParent(z)
      ensures Located(nodes, z, t)
      ensures found.None? <==> nodes == []
      ensures found.None? ==> value !in Contents()
      ensures found.Some? ==> found.value < |nodes| && (nodes[found.value].value == value <==> value in Contents())
      ensures found.Some? && nodes[found.value].value != value ==>
        if value < nodes[found.value].value then nodes[found.value].leftChild.None? else nodes[found.value].rightChild.None?
      ensures found.Some? && value !in Contents() ==>
        var x := nodes[found.value].value;
        (value < x ==> forall y | y in Contents() && value < y :: x <= y) &&
        (x < value ==> forall y | y in Contents() && y < value :: y <= x)
    {
      var currentIndex := root;
      var previousIndex: Option<nat> := None;
      var index := currentIndex;
      z, t := [], shape;
      while index.Some?
        invariant index == currentIndex == Top(t)
        invariant shape == Plug(z, t) && Admits(z, value)
        invariant Linked(nodes, t, HoleParent(z)) && LinkedPath(nodes, z, Top(t))
        invariant previousIndex == HoleParent(z)
        decreases t
      {
        LinkedPlug(nodes, z, t);
        previousIndex := currentIndex;
        var k := index.value;
        ghost var z0 := z;
        if value > nodes[k].value {
          currentIndex := nodes[k].rightChild;
          z, t := [HoleRight(t.left, k, t.value)] + z, t.right;
        } else if value < nodes[k].value {
          currentIndex := nodes[k].leftChild;
          z, t := [HoleLeft(k, t.value, t.right)] + z, t.left;
        } else {
          AdmitsAbsent(z, t, value);
          Locate(nodes, root, z, t);
          return currentIndex, z, t;
        }
        assert z[1..] == z0;
        index := currentIndex;
      }
      AdmitsAbsent(z, t, value);
      Locate(nodes, root, z, t);
      assert z == [] ==> 0 !in Indices(shape);
      if z != [] {
        NeighbourAtHole(z, value);
      }
      return previousIndex, z, t;
    }

    /** Membership: the search ends at a node holding `value` exactly when `value` is stored. */
    method Contains(value: int) returns (b: bool)
      requires Valid()
      ensures b <==> value in Contents()
    {
      var index;
      ghost var z, t;
      index, z, t := GetNode(value);
      if index.None? {
        return false;
      }
      return nodes[index.value].value == value;
    }

    /**
     * Prepare the record for a new node holding `value`: nothing when `value`
     * is already stored; otherwise the node where the search stopped gets the
     * next free handle in its child slot on `value`'s side, and the result is
     * a leaf record whose parent is that node. The arena does not grow here.
     */
    method CreateNode(value: int) returns (node: Option<Node>, ghost z: Path)
      requires Valid()
      modifies this
      ensures shape == old(shape) && root == old(root)
      ensures node.None? <==> value in old(Contents())
      ensures node.None? ==> nodes == old(nodes)
      ensures node.Some? ==>
        old(shape) == Plug(z, Nil) && Admits(z, value) && (z != [] ==> z[0].idx < |old(nodes)|) &&
        nodes == Attach(old(nodes), z, |old(nodes)|) && node.value == Node(value, HoleParent(z), None, None, 0)
    {
      var parent;
      ghost var t;
      parent, z, t := GetNode(value);
      if parent.Some? {
        var index := parent.value;
        if nodes[index].value == value {
          return None, z;
        } else if nodes[index].value < value {
          nodes := nodes[index := nodes[index].(rightChild := Some(|nodes|))];
        } else {
          nodes := nodes[index := nodes[index].(leftChild := Some(|nodes|))];
        }
      }
      return Some(Node(value, parent, None, None, 0)), z;
    }

    /**
     * Recompute the cached heights of the strict ancestors of `startIndex`,
     * bottom-up, and then the root's. `startIndex`'s own subtree must already
     * carry correct heights, and so must every subtree hanging off the path
     * to the root; afterwards every cached height is correct, and only the
     * heights of the ancestors have changed.
     */
    method UpdateHeights(startIndex: nat, ghost z: Path, ghost t: Tree)
      requires Shaped(nodes, root, shape) && shape == Plug(z, t) && t.Br? && t.idx == startIndex
      requires HeightsOk(nodes, t) && SiblingsOk(nodes, z)
      modifies this
      ensures Repr(nodes, root, shape)
      ensures shape == old(shape) && root == old(root) && SameLinks(old(nodes), nodes)
      ensures forall k | 0 <= k < |nodes| && k !in FrameIdx(z) :: nodes[k] == old(nodes)[k]
    {
      var childIndex := startIndex;
      ghost var zc, tc := z, t;
      LinkedPlug(nodes, z, t);
      while nodes[childIndex].parent.Some?
        invariant Shaped(nodes, root, shape) && shape == Plug(zc, tc) && tc.Br? && tc.idx == childIndex
        invariant childIndex < |nodes| && nodes[childIndex].parent == HoleParent(zc)
        invariant HeightsOk(nodes, tc) && SiblingsOk(nodes, zc)
        invariant shape == old(shape) && root == old(root) && SameLinks(old(nodes), nodes)
        invariant FrameIdx(zc) <= FrameIdx(z)
        invariant forall k | 0 <= k < |nodes| && k !in FrameIdx(z) :: nodes[k] == old(nodes)[k]
        decreases |zc|
      {
        RaiseHeight(nodes, root, zc, tc);
        var ancestorIndex := nodes[childIndex].parent.value;
        nodes := nodes[ancestorIndex := nodes[ancestorIndex].(height :=
          ComputeHeight(nodes, nodes[ancestorIndex].leftChild, nodes[ancestorIndex].rightChild))];
        childIndex := ancestorIndex;
        zc, tc := zc[1..], Fill(zc[0], tc);
      }
      // the root's height
      assert zc == [];
      LinkedPlug(nodes, zc, tc);
      ComputeHeightOk(nodes, tc, None);
      var rootIndex := root.value;
      ghost var prev := nodes;
      nodes := nodes[rootIndex := nodes[rootIndex].(height :=
        ComputeHeight(nodes, nodes[rootIndex].leftChild, nodes[rootIndex].rightChild))];
      assert nodes == prev;
    }

    /**
     * The pointer surgery of a left rotation at `index`, whose right child is
     * `rightIndex`: every record write of the rotation before its height
     * walk, and the root redirection when `index` was the root. The records
     * the source reads again after writing them are read once, up front.
     */
    method RotateLeftLinks(index: nat, rightIndex: nat)
      requires LeftRotatable(nodes, index, rightIndex)
      modifies this
      ensures nodes == LeftRelinked(old(nodes), index, rightIndex) && shape == old(shape)
      ensures root == if old(nodes[index].parent).None? then Some(rightIndex) else old(root)
    {
      var ns := nodes;
      var y, p := ns[rightIndex].leftChild, ns[index].parent;
      ns := ns[index := ns[index].(rightChild := y)];
      if y.Some? {
        ns := ns[y.value := ns[y.value].(parent := Some(index))];
      }
      ns := ns[rightIndex := ns[rightIndex].(leftChild := Some(index))];
      if p.Some? {
        if ns[p.value].leftChild == Some(index) {
          ns := ns[p.value := ns[p.value].(leftChild := Some(rightIndex))];
        } else {
          ns := ns[p.value := ns[p.value].(rightChild := Some(rightIndex))];
        }
      } else {
        root := Some(rightIndex);
      }
      var indexHeight := ComputeHeight(nodes, nodes[index].leftChild, y);
      ns := ns[index := ns[index].(height := indexHeight)];
      var rightHeight := ComputeHeight(ns, Some(index), nodes[rightIndex].rightChild);
      ns := ns[rightIndex := ns[rightIndex].(height := rightHeight)];
      ns := ns[rightIndex := ns[rightIndex].(parent := p)];
      ns := ns[index := ns[index].(parent := Some(rightIndex))];
      nodes := ns;
    }

    /**
     * Left rotation at `index` (the top of `t`): its right child B takes its
     * place, it becomes B's left child, and B's old left subtree becomes its
     * right subtree; the parent's slot or the root is redirected to B. No
     * change without a right child. Afterwards the cached heights are
     * recomputed from the lowered node up to the root.
     */
    method LeftRotation(index: nat, ghost z: Path, ghost t: Tree)
      requires Repr(nodes, root, shape) && shape == Plug(z, t) && t.Br? && t.idx == index
      modifies this
      ensures Repr(nodes, root, shape) && shape == Plug(z, RotL(t))
      ensures |nodes| == |old(nodes)| && forall k | 0 <= k < |nodes| :: nodes[k].value == old(nodes)[k].value
      ensures t.right.Nil? ==> nodes == old(nodes) && root == old(root)
      ensures z != [] ==> root == old(root)
      ensures forall k | 0 <= k < |nodes| && k != index && Top(t.right) != Some(k) && k !in FrameIdx(z) &&
        (t.right.Br? ==> Top(t.right.left) != Some(k)) :: nodes[k] == old(nodes)[k]
    {
      Locate(nodes, root, z, t);
      if nodes[index].rightChild.Some? {
        var rightIndex := nodes[index].rightChild.value;
        ghost var a := nodes;
        ghost var X, Y, C := t.left, t.right.left, t.right.right;
        assert Linked(a, t, HoleParent(z));
        RotLRecords(a, z, t);
        RotateLeftLinks(index, rightIndex);
        RotLArena(a, nodes, old(root), root, z, t);
        shape := Plug(z, RotL(t));
        ghost var z' := [HoleLeft(rightIndex, t.right.value, C)] + z;
        ghost var b := nodes;
        UpdateHeights(index, z', Br(X, index, t.value, Y));
        assert forall k | 0 <= k < |nodes| :: nodes[k].value == b[k].value;
        forall k | 0 <= k < |nodes| && k != index && k != rightIndex && k !in FrameIdx(z) && Top(Y) != Some(k)
          ensures nodes[k] == a[k]
        {
          assert k !in FrameIdx(z') && HoleParent(z) != Some(k);
        }
      }
    }

    /** The mirror image of RotateLeftLinks, for a right rotation at `index` with left child `leftIndex`. */
    method RotateRightLinks(index: nat, leftIndex: nat)
      requires RightRotatable(nodes, index, leftIndex)
      modifies this
      ensures nodes == RightRelinked(old(nodes), index, leftIndex) && shape == old(shape)
      ensures root == if old(nodes[index].parent).None? then Some(leftIndex) else old(root)
    {
      var ns := nodes;
      var y, p := ns[leftIndex].rightChild, ns[index].parent;
      ns := ns[index := ns[index].(leftChild := y)];
      if y.Some? {
        ns := ns[y.value := ns[y.value].(parent := Some(index))];
      }
      ns := ns[leftIndex := ns[leftIndex].(rightChild := Some(index))];
      if p.Some? {
        if ns[p.value].leftChild == Some(index) {
          ns := ns[p.value := ns[p.value].(leftChild := Some(leftIndex))];
        } else {
          ns := ns[p.value := ns[p.value].(rightChild := Some(leftIndex))];
        }
      } else {
        root := Some(leftIndex);
      }
      var indexHeight := ComputeHeight(nodes, y, nodes[index].rightChild);
      ns := ns[index := ns[index].(height := indexHeight)];
      var leftHeight := ComputeHeight(ns, nodes[leftIndex].leftChild, Some(index));
      ns := ns[leftIndex := ns[leftIndex].(height := leftHeight)];
      ns := ns[leftIndex := ns[leftIndex].(parent := p)];
      ns := ns[index := ns[index].(parent := Some(leftIndex))];
      nodes := ns;
    }

    /** The mirror image of LeftRotation: no change without a left child. */
    method RightRotation(index: nat, ghost z: Path, ghost t: Tree)
      requires Repr(nodes, root, shape) && shape == Plug(z, t) && t.Br? && t.idx == index
      modifies this
      ensures Repr(nodes, root, shape) && shape == Plug(z, RotR(t))
      ensures |nodes| == |old(nodes)| && forall k | 0 <= k < |nodes| :: nodes[k].value == old(nodes)[k].value
      ensures t.left.Nil? ==> nodes == old(nodes) && root == old(root)
      ensures z != [] ==> root == old(root)
      ensures forall k | 0 <= k < |nodes| && k != index && Top(t.left) != Some(k) && k !in FrameIdx(z) &&
        (t.left.Br? ==> Top(t.left.right) != Some(k)) :: nodes[k] == old(nodes)[k]
    {
      Locate(nodes, root, z, t);
      if nodes[index].leftChild.Some? {
        var leftIndex := nodes[index].leftChild.value;
        ghost var a := nodes;
        ghost var X, Y, C := t.right, t.left.right, t.left.left;
        assert Linked(a, t, HoleParent(z));
        RotRRecords(a, z, t);
        RotateRightLinks(index, leftIndex);
        RotRArena(a, nodes, old(root), root, z, t);
        shape := Plug(z, RotR(t));
        ghost var z' := [HoleRight(C, leftIndex, t.left.value)] + z;
        ghost var b := nodes;
        UpdateHeights(index, z', Br(Y, index, t.value, X));
        assert forall k | 0 <= k < |nodes| :: nodes[k].value == b[k].value;
        forall k | 0 <= k < |nodes| && k != index && k != leftIndex && k !in FrameIdx(z) && Top(Y) != Some(k)
          ensures nodes[k] == a[k]
        {
          assert k !in FrameIdx(z') && HoleParent(z) != Some(k);
        }
      }
    }
  
    /**
     * Double rotation for a right-heavy node whose right child leans left:
     * a right rotation at the right child, then a left rotation at `index`.
     * No change without a right child.
     */
    method RightLeftRotation(index: nat, ghost z: Path, ghost t: Tree)
      requires Repr(nodes, root, shape) && shape == Plug(z, t) && t.Br? && t.idx == index
      modifies this
      ensures Repr(nodes, root, shape) && shape == Plug(z, RotRL(t))
      ensures |nodes| == |old(nodes)| && forall k | 0 <= k < |nodes| :: nodes[k].value == old(nodes)[k].value
      ensures t.right.Nil? ==> nodes == old(nodes) && root == old(root)
      ensures z != [] ==> root == old(root)
    {
      Locate(nodes, root, z, t);
      if nodes[index].rightChild.Some? {
        var rightIndex := nodes[index].rightChild.value;
        ghost var z' := [HoleRight(t.left, index, t.value)] + z;
        assert z'[1..] == z;
        RightRotation(rightIndex, z', t.right);
        LeftRotation(index, z, Br(t.left, index, t.value, RotR(t.right)));
      }
    }

    /**
     * Double rotation for a left-heavy node whose left child leans right:
     * a left rotation at the left child, then a right rotation at `index`.
     * No change without a left child.
     */
    method LeftRightRotation(index: nat, ghost z: Path, ghost t: Tree)
      requires Repr(nodes, root, shape) && shape == Plug(z, t) && t.Br? && t.idx == index
      modifies this
      ensures Repr(nodes, root, shape) && shape == Plug(z, RotLR(t))
      ensures |nodes| == |old(nodes)| && forall k | 0 <= k < |nodes| :: nodes[k].value == old(nodes)[k].value
      ensures t.left.Nil? ==> nodes == old(nodes) && root == old(root)
      ensures z != [] ==> root == old(root)
    {
      Locate(nodes, root, z, t);
      if nodes[index].leftChild.Some? {
        var leftIndex := nodes[index].leftChild.value;
        ghost var z' := [HoleLeft(index, t.value, t.right)] + z;
        assert z'[1..] == z;
        LeftRotation(leftIndex, z', t.left);
        RightRotation(index, z, Br(RotL(t.left), index, t.value, t.right));
      }
    }

    /**
     * The rebalancing step at `index`, the top of `t`, chosen by its balance
     * factor: -2 rotates left (or right-left when the right child leans left
     * or not at all), 2 rotates right (or left-right), -1 to 1 changes
     * nothing. Any other balance factor is the source's "invalid balance
     * factor" failure: `ok` is false and nothing changes.
     */
    method Rebalance(index: nat, ghost z: Path, ghost t: Tree) returns (ok: bool)
      requires Repr(nodes, root, shape) && shape == Plug(z, t) && t.Br? && t.idx == index
      modifies this
      ensures ok <==> -2 <= Bf(t) <= 2
      ensures ok ==> Repr(nodes, root, shape) && shape == Plug(z, Rebal(t))
      ensures !ok ==> nodes == old(nodes) && root == old(root) && shape == old(shape)
      ensures |nodes| == |old(nodes)| && forall k | 0 <= k < |nodes| :: nodes[k].value == old(nodes)[k].value
    {
      Locate(nodes, root, z, t);
      BalanceFactorOk(nodes, t, HoleParent(z));
      var balanceFactor := BalanceFactor(nodes, nodes[index]);
      ok := true;
      if balanceFactor == -2 {
        assert Linked(nodes, t.right, Some(index)) && HeightsOk(nodes, t.right);
        var rightIndex := nodes[index].rightChild.value;
        BalanceFactorOk(nodes, t.right, Some(index));
        if BalanceFactor(nodes, nodes[rightIndex]) == -1 {
          LeftRotation(index, z, t);
        } else {
          RightLeftRotation(index, z, t);
        }
      } else if balanceFactor == 2 {
        assert Linked(nodes, t.left, Some(index)) && HeightsOk(nodes, t.left);
        var leftIndex := nodes[index].leftChild.value;
        BalanceFactorOk(nodes, t.left, Some(index));
        if BalanceFactor(nodes, nodes[leftIndex]) == 1 {
          RightRotation(index, z, t);
        } else {
          LeftRightRotation(index, z, t);
        }
      } else if balanceFactor < -2 || balanceFactor > 2 {
        ok := false;
      }
    }
  }
}
