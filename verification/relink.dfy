/**
 * What the pointer surgery of a rotation does to an arena: given the records
 * a rotation rewrites, the rotated subtree is linked in place and the cached
 * heights below the lowered node are still correct.
 */
module Relink {
  import opened Wrappers
  import opened Shape
  import opened Balance
  import opened Arena
  import opened Surgery

  /** The subtree `t` sits at the hole of `z` in arena `a`, with correct links and heights. */
  ghost predicate Located(a: seq<Node>, z: Path, t: Tree)
  {
    Linked(a, t, HoleParent(z)) && LinkedPath(a, z, Top(t)) &&
    HeightsOk(a, t) && SiblingsOk(a, z) &&
    Distinct(t) && DistinctPath(z) && Indices(t) !! PathIdx(z) && SiblingIdx(z) <= PathIdx(z)
  }

  /** The facts about a located subtree that every arena operation starts from. */
  lemma Locate(a: seq<Node>, root: Option<nat>, z: Path, t: Tree)
    requires Repr(a, root, Plug(z, t))
    ensures Located(a, z, t)
    ensures Indices(Plug(z, t)) == Indices(t) + PathIdx(z)
    ensures Bst(t) && forall y | y in Values(t) :: Admits(z, y)
  {
    LinkedPlug(a, z, t);
    HeightsPlug(a, z, t);
    DistinctPlug(z, t);
    SiblingIdxInPathIdx(z);
    IndicesPlug(z, t);
    BstAdmits(z, t);
  }

  /**
   * The record at the top of a stored subtree: in range, with children in
   * range, its parent the hole's parent, and is_balanced agreeing with the
   * subtree's balance factor.
   */
  lemma TopRecord(a: seq<Node>, root: Option<nat>, z: Path, t: Tree)
    requires Repr(a, root, Plug(z, t)) && t.Br?
    ensures t.idx < |a| && a[t.idx].parent == HoleParent(z)
    ensures a[t.idx].leftChild.Some? ==> a[t.idx].leftChild.value < |a|
    ensures a[t.idx].rightChild.Some? ==> a[t.idx].rightChild.value < |a|
    ensures IsBalanced(a, t.idx) <==> -1 <= Bf(t) <= 1
  {
    Locate(a, root, z, t);
    BalanceFactorOk(a, t, HoleParent(z));
  }

  /**
   * In a stored AVL tree every node passes is_balanced: each record's
   * children are in range and its cached heights differ by at most one.
   */
  lemma AllBalanced(a: seq<Node>, root: Option<nat>, t: Tree)
    requires Repr(a, root, t) && Balanced(t)
    ensures forall k | 0 <= k < |a| ::
      (a[k].leftChild.Some? ==> a[k].leftChild.value < |a|) &&
      (a[k].rightChild.Some? ==> a[k].rightChild.value < |a|) &&
      IsBalanced(a, k)
  {
    forall k | 0 <= k < |a|
      ensures (a[k].leftChild.Some? ==> a[k].leftChild.value < |a|) &&
        (a[k].rightChild.Some? ==> a[k].rightChild.value < |a|) &&
        IsBalanced(a, k)
    {
      assert k in Indices(t);
      var z, s := FindIdx(t, k);
      BalancedSub(z, s);
      TopRecord(a, root, z, s);
    }
  }

  /** After a rotating rebalancing step, the old top's parent is the new top. */
  lemma LoweredTop(a: seq<Node>, root: Option<nat>, z: Path, t: Tree)
    requires Repr(a, root, Plug(z, Rebal(t))) && t.Br? && (Bf(t) == 2 || Bf(t) == -2)
    ensures Rebal(t).Br? && t.idx < |a| && a[t.idx].parent == Top(Rebal(t))
  {
    RebalLowersTop(t);
    var u := Rebal(t);
    Locate(a, root, z, u);
    assert Linked(a, u.left, Some(u.idx)) && Linked(a, u.right, Some(u.idx));
  }

  /**
   * One step of the height walk: with correct heights in the subtree at the
   * hole and beside the path, recomputing the hole parent's height from its
   * children makes the parent's whole subtree correct and changes nothing else
   * that matters.
   */
  lemma RaiseHeight(a: seq<Node>, root: Option<nat>, z: Path, t: Tree)
    requires Shaped(a, root, Plug(z, t)) && t.Br? && z != [] && HeightsOk(a, t) && SiblingsOk(a, z)
    ensures var k := z[0].idx;
      k < |a| && (a[k].leftChild.Some? ==> a[k].leftChild.value < |a|) && (a[k].rightChild.Some? ==> a[k].rightChild.value < |a|) &&
      a[k].parent == HoleParent(z[1..]) &&
      var b := a[k := a[k].(height := ComputeHeight(a, a[k].leftChild, a[k].rightChild))];
      Shaped(b, root, Plug(z, t)) && SameLinks(a, b) && HeightsOk(b, Fill(z[0], t)) && SiblingsOk(b, z[1..])
  {
    LinkedPlug(a, z, t);
    DistinctPlug(z, t);
    SiblingIdxInPathIdx(z[1..]);
    var k := z[0].idx;
    var up := Fill(z[0], t);
    LinkedPlug(a, z[1..], up);
    ComputeHeightOk(a, up, HoleParent(z[1..]));
    var h := ComputeHeight(a, a[k].leftChild, a[k].rightChild);
    var b := a[k := a[k].(height := h)];
    assert k !in Indices(t) + Indices(z[0].sibling) + SiblingIdx(z[1..]);
    HeightWriteSameLinks(a, k, h);
    ShapedSameLinks(a, b, root, Plug(z, t));
    HeightWriteElsewhere(a, k, h, t);
    HeightWriteElsewhere(a, k, h, z[0].sibling);
    SiblingsWriteElsewhere(a, k, h, z[1..]);
  }

  /**
   * The records a left rotation at `t`'s top node A with right child B
   * rewrites, `a` before and `b` after: A takes B's left subtree Y and goes
   * below B, B takes A's place below A's old parent P, whose slot now names B,
   * and Y's top is re-parented to A; every other record is untouched. A's
   * height is recomputed from X and Y; B's is left open (recomputed later).
   */
  ghost predicate RotLWrites(a: seq<Node>, b: seq<Node>, z: Path, t: Tree)
    requires Located(a, z, t) && t.Br? && t.right.Br?
  {
    var A, B, X, Y := t.idx, t.right.idx, t.left, t.right.left;
    |b| == |a| && A < |a| && B < |a| && (Y.Br? ==> Y.idx < |a|) && (z != [] ==> z[0].idx < |a|) &&
    b[A] == a[A].(rightChild := Top(Y), parent := Some(B), height := 1 + Max(Height(X), Height(Y))) &&
    b[B] == a[B].(leftChild := Some(A), parent := a[A].parent, height := b[B].height) &&
    (Y.Br? ==> b[Y.idx] == a[Y.idx].(parent := Some(A))) &&
    (z != [] ==>
      b[z[0].idx] == if z[0].HoleLeft? then a[z[0].idx].(leftChild := Some(B)) else a[z[0].idx].(rightChild := Some(B))) &&
    forall k | 0 <= k < |a| && k != A && k != B && Top(Y) != Some(k) && HoleParent(z) != Some(k) :: b[k] == a[k]
  }

  /** A located subtree with a right child can be rotated left, and the writes are the ones RotLWrites names. */
  lemma RotLRecords(a: seq<Node>, z: Path, t: Tree)
    requires Located(a, z, t) && t.Br? && t.right.Br?
    ensures LeftRotatable(a, t.idx, t.right.idx)
    ensures RotLWrites(a, LeftRelinked(a, t.idx, t.right.idx), z, t)
  {
    var A, B, X, Y, C := t.idx, t.right.idx, t.left, t.right.left, t.right.right;
    assert Linked(a, t.right, Some(A)) && Linked(a, Y, Some(B)) && Linked(a, C, Some(B));
    assert Indices(t) == Indices(X) + {A} + Indices(Y) + {B} + Indices(C) && Distinct(t.right);
    assert Y.Br? ==> Y.idx in Indices(Y) && Y.idx != A && Y.idx != B;
    assert C.Br? ==> C.idx in Indices(C);
    assert HeightsOk(a, t.right) && HeightsOk(a, Y) && HeightsOk(a, X);
    assert SlotHeight(a, Top(X)) == Height(X) && SlotHeight(a, Top(Y)) == Height(Y);
    assert z != [] ==> z[0].idx in PathIdx(z) && z[0].idx !in Indices(t) && A !in Indices(z[0].sibling);
    assert z != [] && z[0].sibling.Br? ==> z[0].sibling.idx in Indices(z[0].sibling);
    LeftRelinkedRecords(a, A, B);
  }

  /** After the writes of a left rotation the rotated subtree is linked at the hole. */
  lemma RotLLinks(a: seq<Node>, b: seq<Node>, z: Path, t: Tree)
    requires Located(a, z, t) && t.Br? && t.right.Br? && RotLWrites(a, b, z, t)
    ensures Linked(b, RotL(t), HoleParent(z))
    ensures z != [] ==> Agree(a, b, PathIdx(z[1..]) + Indices(z[0].sibling))
    ensures forall k | 0 <= k < |a| :: b[k].value == a[k].value
  {
    var A, B, X, Y, C := t.idx, t.right.idx, t.left, t.right.left, t.right.right;
    assert Distinct(t.right);
    assert Linked(a, t.right, Some(A));
    assert Linked(a, C, Some(B)) && Linked(a, Y, Some(B)) && Linked(a, X, Some(A));
    assert Indices(t) == Indices(X) + {A} + Indices(Y) + {B} + Indices(C);
    assert Y.Br? ==> Y.idx in Indices(Y);
    if z != [] {
      assert z[0].idx in PathIdx(z);
      assert z[0].idx !in PathIdx(z[1..]) + Indices(z[0].sibling);
      AgreeExcept(a, b, PathIdx(z[1..]) + Indices(z[0].sibling), A, B, Top(Y), HoleParent(z));
    }
    AgreeExcept(a, b, Indices(X), A, B, Top(Y), HoleParent(z));
    AgreeExcept(a, b, Indices(C), A, B, Top(Y), HoleParent(z));
    LinkedFrame(a, b, X, Some(A));
    LinkedFrame(a, b, C, Some(B));
    if Y.Br? {
      assert Distinct(Y) && Indices(Y) == Indices(Y.left) + {Y.idx} + Indices(Y.right);
      assert Y.idx !in Indices(Y.left) + Indices(Y.right);
      AgreeExcept(a, b, Indices(Y.left) + Indices(Y.right), A, B, Top(Y), HoleParent(z));
      LinkedReparent(a, b, Y, Some(B), Some(A));
    }
    assert Linked(b, Br(X, A, t.value, Y), Some(B));
  }

  /** After the writes of a left rotation the heights below the lowered node are correct. */
  lemma RotLHeights(a: seq<Node>, b: seq<Node>, z: Path, t: Tree)
    requires Located(a, z, t) && t.Br? && t.right.Br? && RotLWrites(a, b, z, t)
    ensures HeightsOk(b, Br(t.left, t.idx, t.value, t.right.left))
    ensures SiblingsOk(b, [HoleLeft(t.right.idx, t.right.value, t.right.right)] + z)
  {
    var A, B, X, Y, C := t.idx, t.right.idx, t.left, t.right.left, t.right.right;
    assert Distinct(t.right);
    assert HeightsOk(a, t.right);
    assert HeightsOk(a, C) && HeightsOk(a, Y) && HeightsOk(a, X);
    assert Indices(t) == Indices(X) + {A} + Indices(Y) + {B} + Indices(C);
    if z != [] {
      assert z[0].idx in PathIdx(z);
    }
    assert forall k | 0 <= k < |a| && k != A && k != B :: b[k].height == a[k].height;
    HeightsFrame(a, b, X);
    HeightsFrame(a, b, Y);
    HeightsFrame(a, b, C);
    SiblingsFrame(a, b, z);
  }

  /** The mirror image of RotLWrites, for a right rotation at `t`'s top node A with left child B. */
  ghost predicate RotRWrites(a: seq<Node>, b: seq<Node>, z: Path, t: Tree)
    requires Located(a, z, t) && t.Br? && t.left.Br?
  {
    var A, B, X, Y := t.idx, t.left.idx, t.right, t.left.right;
    |b| == |a| && A < |a| && B < |a| && (Y.Br? ==> Y.idx < |a|) && (z != [] ==> z[0].idx < |a|) &&
    b[A] == a[A].(leftChild := Top(Y), parent := Some(B), height := 1 + Max(Height(Y), Height(X))) &&
    b[B] == a[B].(rightChild := Some(A), parent := a[A].parent, height := b[B].height) &&
    (Y.Br? ==> b[Y.idx] == a[Y.idx].(parent := Some(A))) &&
    (z != [] ==>
      b[z[0].idx] == if z[0].HoleLeft? then a[z[0].idx].(leftChild := Some(B)) else a[z[0].idx].(rightChild := Some(B))) &&
    forall k | 0 <= k < |a| && k != A && k != B && Top(Y) != Some(k) && HoleParent(z) != Some(k) :: b[k] == a[k]
  }

  /** The mirror image of RotLRecords. */
  lemma RotRRecords(a: seq<Node>, z: Path, t: Tree)
    requires Located(a, z, t) && t.Br? && t.left.Br?
    ensures RightRotatable(a, t.idx, t.left.idx)
    ensures RotRWrites(a, RightRelinked(a, t.idx, t.left.idx), z, t)
  {
    var A, B, X, Y, C := t.idx, t.left.idx, t.right, t.left.right, t.left.left;
    assert Linked(a, t.left, Some(A)) && Linked(a, Y, Some(B)) && Linked(a, C, Some(B));
    assert Indices(t) == Indices(C) + {B} + Indices(Y) + {A} + Indices(X) && Distinct(t.left);
    assert Y.Br? ==> Y.idx in Indices(Y) && Y.idx != A && Y.idx != B;
    assert C.Br? ==> C.idx in Indices(C);
    assert HeightsOk(a, t.left) && HeightsOk(a, Y) && HeightsOk(a, X);
    assert SlotHeight(a, Top(X)) == Height(X) && SlotHeight(a, Top(Y)) == Height(Y);
    assert z != [] ==> z[0].idx in PathIdx(z) && z[0].idx !in Indices(t) && A !in Indices(z[0].sibling);
    assert z != [] && z[0].sibling.Br? ==> z[0].sibling.idx in Indices(z[0].sibling);
    RightRelinkedRecords(a, A, B);
  }

  /** After the writes of a right rotation the rotated subtree is linked at the hole. */
  lemma RotRLinks(a: seq<Node>, b: seq<Node>, z: Path, t: Tree)
    requires Located(a, z, t) && t.Br? && t.left.Br? && RotRWrites(a, b, z, t)
    ensures Linked(b, RotR(t), HoleParent(z))
    ensures z != [] ==> Agree(a, b, PathIdx(z[1..]) + Indices(z[0].sibling))
    ensures forall k | 0 <= k < |a| :: b[k].value == a[k].value
  {
    var A, B, X, Y, C := t.idx, t.left.idx, t.right, t.left.right, t.left.left;
    assert Distinct(t.left);
    assert Linked(a, t.left, Some(A));
    assert Linked(a, C, Some(B)) && Linked(a, Y, Some(B)) && Linked(a, X, Some(A));
    assert Indices(t) == Indices(C) + {B} + Indices(Y) + {A} + Indices(X);
    assert Y.Br? ==> Y.idx in Indices(Y);
    if z != [] {
      assert z[0].idx in PathIdx(z);
      assert z[0].idx !in PathIdx(z[1..]) + Indices(z[0].sibling);
      AgreeExcept(a, b, PathIdx(z[1..]) + Indices(z[0].sibling), A, B, Top(Y), HoleParent(z));
    }
    AgreeExcept(a, b, Indices(X), A, B, Top(Y), HoleParent(z));
    AgreeExcept(a, b, Indices(C), A, B, Top(Y), HoleParent(z));
    LinkedFrame(a, b, X, Some(A));
    LinkedFrame(a, b, C, Some(B));
    if Y.Br? {
      assert Distinct(Y) && Indices(Y) == Indices(Y.left) + {Y.idx} + Indices(Y.right);
      assert Y.idx !in Indices(Y.left) + Indices(Y.right);
      AgreeExcept(a, b, Indices(Y.left) + Indices(Y.right), A, B, Top(Y), HoleParent(z));
      LinkedReparent(a, b, Y, Some(B), Some(A));
    }
    assert Linked(b, Br(Y, A, t.value, X), Some(B));
  }

  /** After the writes of a right rotation the heights below the lowered node are correct. */
  lemma RotRHeights(a: seq<Node>, b: seq<Node>, z: Path, t: Tree)
    requires Located(a, z, t) && t.Br? && t.left.Br? && RotRWrites(a, b, z, t)
    ensures HeightsOk(b, Br(t.left.right, t.idx, t.value, t.right))
    ensures SiblingsOk(b, [HoleRight(t.left.left, t.left.idx, t.left.value)] + z)
  {
    var A, B, X, Y, C := t.idx, t.left.idx, t.right, t.left.right, t.left.left;
    assert Distinct(t.left);
    assert HeightsOk(a, t.left);
    assert HeightsOk(a, C) && HeightsOk(a, Y) && HeightsOk(a, X);
    assert Indices(t) == Indices(C) + {B} + Indices(Y) + {A} + Indices(X);
    if z != [] {
      assert z[0].idx in PathIdx(z);
    }
    assert forall k | 0 <= k < |a| && k != A && k != B :: b[k].height == a[k].height;
    HeightsFrame(a, b, X);
    HeightsFrame(a, b, Y);
    HeightsFrame(a, b, C);
    SiblingsFrame(a, b, z);
  }

  /**
   * A left rotation's writes, with the parent's slot or the root redirected,
   * leave an arena that stores the rotated tree, ready for the height walk
   * from the lowered node.
   */
  lemma RotLArena(a: seq<Node>, b: seq<Node>, root: Option<nat>, root': Option<nat>, z: Path, t: Tree)
    requires Repr(a, root, Plug(z, t)) && Located(a, z, t) && t.Br? && t.right.Br? && RotLWrites(a, b, z, t)
    requires root' == if z == [] then Some(t.right.idx) else root
    ensures var z' := [HoleLeft(t.right.idx, t.right.value, t.right.right)] + z;
      var s := Br(t.left, t.idx, t.value, t.right.left);
      Shaped(b, root', Plug(z, RotL(t))) && Plug(z', s) == Plug(z, RotL(t)) &&
      HeightsOk(b, s) && SiblingsOk(b, z') && FrameIdx(z') == {t.right.idx} + FrameIdx(z) &&
      forall k | 0 <= k < |a| :: b[k].value == a[k].value
  {
    var z' := [HoleLeft(t.right.idx, t.right.value, t.right.right)] + z;
    assert z'[1..] == z;
    RotLLinks(a, b, z, t);
    RotLHeights(a, b, z, t);
    RotLKeeps(t);
    BstAdmits(z, t);
    Reshape(a, b, root, root', z, t, RotL(t));
  }

  /** The mirror image of RotLArena. */
  lemma RotRArena(a: seq<Node>, b: seq<Node>, root: Option<nat>, root': Option<nat>, z: Path, t: Tree)
    requires Repr(a, root, Plug(z, t)) && Located(a, z, t) && t.Br? && t.left.Br? && RotRWrites(a, b, z, t)
    requires root' == if z == [] then Some(t.left.idx) else root
    ensures var z' := [HoleRight(t.left.left, t.left.idx, t.left.value)] + z;
      var s := Br(t.left.right, t.idx, t.value, t.right);
      Shaped(b, root', Plug(z, RotR(t))) && Plug(z', s) == Plug(z, RotR(t)) &&
      HeightsOk(b, s) && SiblingsOk(b, z') && FrameIdx(z') == {t.left.idx} + FrameIdx(z) &&
      forall k | 0 <= k < |a| :: b[k].value == a[k].value
  {
    var z' := [HoleRight(t.left.left, t.left.idx, t.left.value)] + z;
    assert z'[1..] == z;
    RotRLinks(a, b, z, t);
    RotRHeights(a, b, z, t);
    RotRKeeps(t);
    BstAdmits(z, t);
    Reshape(a, b, root, root', z, t, RotR(t));
  }
}
