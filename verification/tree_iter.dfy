/**
 * In-order iteration over a node arena: the iterator holds the arena and the
 * handle of the next node to visit, and climbs parent links when a node has
 * no right subtree. The ghost state locates the next node in the stored tree
 * and lists the values still to come.
 */
module AvlIter {
  import opened Wrappers
  import opened Shape
  import opened Arena

  /** The in-order values that come after the subtree at the hole of `z`. */
  function AfterHole(z: Path): seq<int>
    decreases |z|
  {
    if z == [] then []
    else (if z[0].HoleLeft? then [z[0].value] + InOrder(z[0].sibling) else []) + AfterHole(z[1..])
  }

  lemma {:induction false} AfterHoleAppend(y: Path, z: Path)
    ensures AfterHole(y + z) == AfterHole(y) + AfterHole(z)
    decreases |y|
  {
    if y != [] {
      assert (y + z)[0] == y[0] && (y + z)[1..] == y[1..] + z;
      AfterHoleAppend(y[1..], z);
    } else {
      assert y + z == z;
    }
  }

  /**
   * One node `t` of a stored search tree, at the hole of `z`: its record, its
   * parent's record, and which side of its parent it hangs on, read off the
   * values (a parent holding a smaller value has it as right child).
   */
  lemma Climb(nodes: seq<Node>, z: Path, t: Tree)
    requires Linked(nodes, t, HoleParent(z)) && LinkedPath(nodes, z, Top(t)) && Bst(Plug(z, t)) && t.Br?
    ensures t.idx < |nodes| && nodes[t.idx].parent == HoleParent(z) && nodes[t.idx].value == t.value
    ensures z != [] ==>
      z[0].idx < |nodes| && nodes[z[0].idx].value == z[0].value &&
      (z[0].value < t.value <==> z[0].HoleRight?) &&
      Plug(z[1..], Fill(z[0], t)) == Plug(z, t) &&
      Linked(nodes, Fill(z[0], t), HoleParent(z[1..])) && LinkedPath(nodes, z[1..], Some(z[0].idx))
  {
    BstAdmits(z, t);
    assert t.value in Values(t) && Admits(z, t.value);
  }

  /**
   * The successor of a node with a right subtree is the leftmost node of
   * that subtree: the values to come after it are those after the node, less
   * the node's own.
   */
  lemma SuccessorBelow(path: Path, at: Tree, zl: Path, tl: Tree)
    requires at.Br? && tl.Br? && at.right == Plug(zl, tl)
    requires InOrder(at.right) == [tl.value] + InOrder(tl.right) + AfterHole(zl)
    ensures var z := zl + [HoleRight(at.left, at.idx, at.value)] + path;
      Plug(z, tl) == Plug(path, at) &&
      [tl.value] + InOrder(tl.right) + AfterHole(z) == InOrder(at.right) + AfterHole(path)
  {
    var z1 := [HoleRight(at.left, at.idx, at.value)] + path;
    assert z1[1..] == path;
    assert zl + [HoleRight(at.left, at.idx, at.value)] + path == zl + z1;
    PlugAppend(zl, z1, tl);
    AfterHoleAppend(zl, z1);
  }

  /**
   * The successor of a node without a right subtree is the parent of the
   * first ancestor (the node itself included) that hangs on a left side; none
   * when there is no such ancestor.
   */
  lemma SuccessorAbove(zn: Path, tn: Tree)
    requires zn != [] ==> zn[0].HoleLeft?
    ensures zn == [] ==> AfterHole(zn) == []
    ensures zn != [] ==>
      Plug(zn[1..], Fill(zn[0], tn)) == Plug(zn, tn) &&
      AfterHole(zn) == [zn[0].value] + InOrder(zn[0].sibling) + AfterHole(zn[1..])
  {
  }

  class SearchTreeIter {
    var nodes: seq<Node>
    var currentNode: Option<nat>
    ghost var shape: Tree
    ghost var path: Path
    ghost var at: Tree
    /** The values the iterator has still to yield, in order. */
    ghost var remaining: seq<int>

    /**
     * The arena stores `shape` as a search tree; `currentNode` is the top of
     * `at`, found at the hole of `path`, and the values still to come are its
     * own, those of its right subtree, and those after the hole.
     */
    ghost predicate Valid()
      reads this
    {
      Linked(nodes, shape, None) && Bst(shape) &&
      (currentNode.None? ==> remaining == []) &&
      (currentNode.Some? ==>
        at.Br? && currentNode == Some(at.idx) && shape == Plug(path, at) &&
        remaining == [at.value] + InOrder(at.right) + AfterHole(path))
    }

    /**
     * The leftmost node of the subtree `t` whose top is `root`: None for an
     * empty subtree, and otherwise the node `tl` reached by following left
     * children, which holds the first value of the subtree in order; `zl` is
     * the path of left steps from `t` down to it.
     */
    static method GetLeftmost(nodes: seq<Node>, root: Option<nat>, ghost p: Option<nat>, ghost t: Tree)
      returns (leftmost: Option<nat>, ghost zl: Path, ghost tl: Tree)
      requires Linked(nodes, t, p) && root == Top(t)
      ensures leftmost.None? <==> t.Nil?
      ensures t.Br? ==>
        tl.Br? && tl.left.Nil? && leftmost == Some(tl.idx) && t == Plug(zl, tl) &&
        InOrder(t) == [tl.value] + InOrder(tl.right) + AfterHole(zl) &&
        forall i | 0 <= i < |zl| :: zl[i].HoleLeft?
    {
      zl, tl := [], t;
      if root.None? {
        return None, zl, tl;
      }
      var leftmostNode := root.value;
      ghost var q := p;
      while nodes[leftmostNode].leftChild.Some?
        invariant tl.Br? && leftmostNode == tl.idx && Linked(nodes, tl, q)
        invariant t == Plug(zl, tl) && InOrder(t) == InOrder(tl) + AfterHole(zl)
        invariant forall i | 0 <= i < |zl| :: zl[i].HoleLeft?
        decreases tl
      {
        leftmostNode := nodes[leftmostNode].leftChild.value;
        ghost var f := HoleLeft(tl.idx, tl.value, tl.right);
        assert ([f] + zl)[1..] == zl;
        zl, tl, q := [f] + zl, tl.left, Some(tl.idx);
      }
      return Some(leftmostNode), zl, tl;
    }

    /**
     * Start an in-order iteration over the tree stored in `nodes` under
     * `root`: the values to come are the whole in-order sequence, which lists
     * every stored value once, in strictly ascending order.
     */
    constructor(nodes: seq<Node>, root: Option<nat>, ghost shape: Tree)
      requires Shaped(nodes, root, shape)
      ensures Valid() && this.nodes == nodes && this.shape == shape
      ensures remaining == InOrder(shape)
      ensures StrictlyIncreasing(remaining) && forall y :: y in remaining <==> y in Values(shape)
    {
      var leftmost;
      ghost var zl, tl;
      leftmost, zl, tl := GetLeftmost(nodes, root, None, shape);
      this.nodes := nodes;
      this.shape := shape;
      currentNode := leftmost;
      path, at := zl, tl;
      remaining := InOrder(shape);
      InOrderSorted(shape);
    }

    /**
     * Yield the next value: None once the iteration is over (the source's
     * StopIteration), and otherwise the first value still to come. The next
     * node is the leftmost node of the right subtree when there is one, and
     * otherwise the first ancestor reached from a left child, found by
     * climbing while the parent holds a smaller value.
     */
    method Next() returns (r: Option<int>)
      requires Valid()
      modifies this
      ensures Valid() && nodes == old(nodes) && shape == old(shape)
      ensures old(remaining) == [] ==> r.None? && remaining == []
      ensures old(remaining) != [] ==> r == Some(old(remaining)[0]) && remaining == old(remaining)[1..]
    {
      if currentNode.None? {
        return None;
      }
      ghost var rest, z0, t0 := remaining, path, at;
      assert t0.Br? && Plug(z0, t0) == shape && Bst(shape) && rest == [t0.value] + InOrder(t0.right) + AfterHole(z0);
      LinkedPlug(nodes, z0, t0);
      var nodeIndex := currentNode.value;
      var node := nodes[nodeIndex];
      var result := node.value;
      var next: Option<nat>;
      ghost var path', at' := z0, t0;
      assert rest[1..] == InOrder(t0.right) + AfterHole(z0);
      if node.rightChild.Some? {
        ghost var zl, tl;
        next, zl, tl := GetLeftmost(nodes, node.rightChild, Some(t0.idx), t0.right);
        SuccessorBelow(z0, t0, zl, tl);
        path', at' := zl + [HoleRight(t0.left, t0.idx, t0.value)] + z0, tl;
      } else {
        next := currentNode;
        ghost var zn, tn := z0, t0;
        Climb(nodes, zn, tn);
        while node.parent.Some? && nodes[node.parent.value].value < node.value
          invariant Linked(nodes, tn, HoleParent(zn)) && LinkedPath(nodes, zn, Top(tn))
          invariant tn.Br? && tn.idx < |nodes| && node == nodes[tn.idx] && Plug(zn, tn) == shape && Bst(shape)
          invariant AfterHole(zn) == AfterHole(z0)
          invariant nodes == old(nodes) && shape == old(shape)
          decreases |zn|
        {
          Climb(nodes, zn, tn);
          next := node.parent;
          node := nodes[next.value];
          zn, tn := zn[1..], Fill(zn[0], tn);
          Climb(nodes, zn, tn);
        }
        Climb(nodes, zn, tn);
        assert t0.right.Nil? && InOrder(t0.right) == [];
        next := node.parent;
        SuccessorAbove(zn, tn);
        if zn != [] {
          path', at' := zn[1..], Fill(zn[0], tn);
        }
      }
      assert next.None? ==> rest[1..] == [];
      assert next.Some? ==>
        (at'.Br? && next == Some(at'.idx) && shape == Plug(path', at') &&
         rest[1..] == [at'.value] + InOrder(at'.right) + AfterHole(path'));
      currentNode, path, at := next, path', at';
      remaining := rest[1..];
      return Some(result);
    }
  }
}
