/**
 * Rotations, the rebalancing step and insertion on the algebraic tree: the
 * reference definitions the arena operations are proved against, with the
 * AVL facts about them.
 */
module Balance {
  import opened Shape

  /**
   *     A                 B
   *    / \               / \
   *   X   B      =>     A   C
   *      / \           / \
   *     Y   C         X   Y
   * No change when A has no right child.
   */
  function RotL(t: Tree): Tree
  {
    if t.Br? && t.right.Br? then
      Br(Br(t.left, t.idx, t.value, t.right.left), t.right.idx, t.right.value, t.right.right)
    else t
  }

  /** The mirror image of RotL; no change when the node has no left child. */
  function RotR(t: Tree): Tree
  {
    if t.Br? && t.left.Br? then
      Br(t.left.left, t.left.idx, t.left.value, Br(t.left.right, t.idx, t.value, t.right))
    else t
  }

  /** Right rotation at the right child, then left rotation at the node. */
  function RotRL(t: Tree): Tree
  {
    if t.Br? && t.right.Br? then RotL(Br(t.left, t.idx, t.value, RotR(t.right))) else t
  }

  /** Left rotation at the left child, then right rotation at the node. */
  function RotLR(t: Tree): Tree
  {
    if t.Br? && t.left.Br? then RotR(Br(RotL(t.left), t.idx, t.value, t.right)) else t
  }

  /**
   * The rebalancing step at the top of `t`, with the case split of the arena
   * code: a balance factor of -2 or 2 selects a single or a double rotation by
   * the heavy child's balance factor; any other value leaves the tree alone.
   */
  function Rebal(t: Tree): Tree
  {
    if t.Nil? then t
    else if Bf(t) == -2 then (if Bf(t.right) == -1 then RotL(t) else RotRL(t))
    else if Bf(t) == 2 then (if Bf(t.left) == 1 then RotR(t) else RotLR(t))
    else t
  }

  /**
   * AVL insertion of `v` under the fresh handle `n`: descend as a search does,
   * attach a leaf, and apply Rebal at every node on the way back up.
   */
  function AvlInsert(t: Tree, v: int, n: nat): Tree
  {
    match t
    case Nil => Br(Nil, n, v, Nil)
    case Br(l, k, x, r) =>
      if v < x then Rebal(Br(AvlInsert(l, v, n), k, x, r))
      else if x < v then Rebal(Br(l, k, x, AvlInsert(r, v, n)))
      else t
  }

  /** What a rotation keeps: the in-order sequence, the handles, distinctness and search order. */
  ghost predicate Keeps(t: Tree, u: Tree)
  {
    InOrder(u) == InOrder(t) && Values(u) == Values(t) && Indices(u) == Indices(t) &&
    (Distinct(t) ==> Distinct(u)) && (Bst(t) ==> Bst(u))
  }

  lemma RotLKeeps(t: Tree)
    ensures Keeps(t, RotL(t))
  {
    if t.Br? && t.right.Br? {
      var X, a, xa, Y, b, xb, C := t.left, t.idx, t.value, t.right.left, t.right.idx, t.right.value, t.right.right;
      assert t == Br(X, a, xa, Br(Y, b, xb, C));
      assert InOrder(RotL(t)) == InOrder(X) + [xa] + InOrder(Y) + [xb] + InOrder(C);
      if Bst(t) {
        var r := Br(Y, b, xb, C);
        assert Values(r) == Values(Y) + {xb} + Values(C);
        assert forall y | y in Values(r) :: xa < y;
        assert Bst(r);
        assert xa < xb;
        var m := Br(X, a, xa, Y);
        assert Bst(m);
        assert Values(m) == Values(X) + {xa} + Values(Y);
        assert forall y | y in Values(m) :: y < xb;
        assert Bst(RotL(t));
      }
      assert Indices(Br(Y, b, xb, C)) == Indices(Y) + {b} + Indices(C);
      if Distinct(t) {
        assert Distinct(Br(Y, b, xb, C));
        var m := Br(X, a, xa, Y);
        assert Distinct(m);
        assert Indices(m) == Indices(X) + {a} + Indices(Y);
        assert Distinct(RotL(t));
      }
    }
  }

  lemma RotRKeeps(t: Tree)
    ensures Keeps(t, RotR(t))
  {
    if t.Br? && t.left.Br? {
      var C, b, xb, Y, a, xa, X := t.left.left, t.left.idx, t.left.value, t.left.right, t.idx, t.value, t.right;
      assert t == Br(Br(C, b, xb, Y), a, xa, X);
      assert InOrder(RotR(t)) == InOrder(C) + [xb] + InOrder(Y) + [xa] + InOrder(X);
      if Bst(t) {
        assert Values(Br(C, b, xb, Y)) == Values(C) + {xb} + Values(Y);
        assert Bst(Br(C, b, xb, Y));
        assert xb < xa;
        var m := Br(Y, a, xa, X);
        assert Bst(m);
        assert Values(m) == Values(Y) + {xa} + Values(X);
        assert forall y | y in Values(m) :: xb < y;
        assert Bst(RotR(t));
      }
      assert Indices(Br(C, b, xb, Y)) == Indices(C) + {b} + Indices(Y);
      if Distinct(t) {
        assert Distinct(Br(C, b, xb, Y));
        var m := Br(Y, a, xa, X);
        assert Distinct(m);
        assert Indices(m) == Indices(Y) + {a} + Indices(X);
        assert Distinct(RotR(t));
      }
    }
  }

  /** Replacing the left subtree by an arrangement that keeps it keeps the whole tree. */
  lemma KeepsLeft(t: Tree, u: Tree)
    requires t.Br? && Keeps(t.left, u)
    ensures Keeps(t, Br(u, t.idx, t.value, t.right))
  {
  }

  /** Replacing the right subtree by an arrangement that keeps it keeps the whole tree. */
  lemma KeepsRight(t: Tree, u: Tree)
    requires t.Br? && Keeps(t.right, u)
    ensures Keeps(t, Br(t.left, t.idx, t.value, u))
  {
  }

  /** The right-left double rotation keeps what a rotation keeps. */
  lemma RotRLKeeps(t: Tree)
    ensures Keeps(t, RotRL(t))
  {
    if t.Br? && t.right.Br? {
      var m := Br(t.left, t.idx, t.value, RotR(t.right));
      RotRKeeps(t.right);
      KeepsRight(t, RotR(t.right));
      RotLKeeps(m);
    }
  }

  /** The left-right double rotation keeps what a rotation keeps. */
  lemma RotLRKeeps(t: Tree)
    ensures Keeps(t, RotLR(t))
  {
    if t.Br? && t.left.Br? {
      var m := Br(RotL(t.left), t.idx, t.value, t.right);
      RotLKeeps(t.left);
      KeepsLeft(t, RotL(t.left));
      RotRKeeps(m);
    }
  }

  /** The rebalancing step keeps what a rotation keeps. */
  lemma RebalKeeps(t: Tree)
    ensures Keeps(t, Rebal(t))
  {
    if t.Nil? || -1 <= Bf(t) <= 1 {
    } else if Bf(t) == -2 {
      if Bf(t.right) == -1 {
        RotLKeeps(t);
      } else {
        RotRLKeeps(t);
      }
    } else if Bf(t) == 2 {
      if Bf(t.left) == 1 {
        RotRKeeps(t);
      } else {
        RotLRKeeps(t);
      }
    }
  }

  /**
   * A rotation, or the rebalancing step, at any node of a tree keeps the
   * whole tree's in-order sequence and values.
   */
  lemma RotationsKeepWhole(z: Path, t: Tree)
    ensures InOrder(Plug(z, RotL(t))) == InOrder(Plug(z, t)) && Values(Plug(z, RotL(t))) == Values(Plug(z, t))
    ensures InOrder(Plug(z, RotR(t))) == InOrder(Plug(z, t)) && Values(Plug(z, RotR(t))) == Values(Plug(z, t))
    ensures InOrder(Plug(z, RotRL(t))) == InOrder(Plug(z, t)) && Values(Plug(z, RotRL(t))) == Values(Plug(z, t))
    ensures InOrder(Plug(z, RotLR(t))) == InOrder(Plug(z, t)) && Values(Plug(z, RotLR(t))) == Values(Plug(z, t))
    ensures InOrder(Plug(z, Rebal(t))) == InOrder(Plug(z, t)) && Values(Plug(z, Rebal(t))) == Values(Plug(z, t))
  {
    RotLKeeps(t);
    RotRKeeps(t);
    RotRLKeeps(t);
    RotLRKeeps(t);
    RebalKeeps(t);
    InOrderPlug(z, t, RotL(t));
    InOrderPlug(z, t, RotR(t));
    InOrderPlug(z, t, RotRL(t));
    InOrderPlug(z, t, RotLR(t));
    InOrderPlug(z, t, Rebal(t));
    ValuesPlug(z, t, RotL(t));
    ValuesPlug(z, t, RotR(t));
    ValuesPlug(z, t, RotRL(t));
    ValuesPlug(z, t, RotLR(t));
    ValuesPlug(z, t, Rebal(t));
  }

  /** When Rebal rotates, the old top node becomes a child of the new top node. */
  lemma RebalLowersTop(t: Tree)
    requires t.Br? && (Bf(t) == 2 || Bf(t) == -2)
    ensures Rebal(t).Br?
    ensures (Rebal(t).left.Br? && Rebal(t).left.idx == t.idx) || (Rebal(t).right.Br? && Rebal(t).right.idx == t.idx)
  {
    if Bf(t) == -2 {
      assert t.right.Br?;
      if t.right.left.Br? {
        assert RotR(t.right).Br?;
      }
    } else {
      assert t.left.Br?;
      if t.left.right.Br? {
        assert RotL(t.left).Br?;
      }
    }
  }

  /** Insertion adds exactly `v` and the handle `n`, and keeps distinctness and search order. */
  lemma {:induction false} AvlInsertKeeps(t: Tree, v: int, n: nat)
    requires v !in Values(t)
    ensures Values(AvlInsert(t, v, n)) == Values(t) + {v}
    ensures Indices(AvlInsert(t, v, n)) == Indices(t) + {n}
    ensures Distinct(t) && n !in Indices(t) ==> Distinct(AvlInsert(t, v, n))
    ensures Bst(t) ==> Bst(AvlInsert(t, v, n))
  {
    match t
    case Nil =>
    case Br(l, k, x, r) =>
      if v < x {
        AvlInsertKeeps(l, v, n);
        var m := Br(AvlInsert(l, v, n), k, x, r);
        assert Values(m) == Values(t) + {v} && Indices(m) == Indices(t) + {n};
        assert Distinct(t) && n !in Indices(t) ==> Distinct(m);
        assert Bst(t) ==> Bst(m);
        RebalKeeps(m);
      } else {
        AvlInsertKeeps(r, v, n);
        var m := Br(l, k, x, AvlInsert(r, v, n));
        assert Values(m) == Values(t) + {v} && Indices(m) == Indices(t) + {n};
        assert Distinct(t) && n !in Indices(t) ==> Distinct(m);
        assert Bst(t) ==> Bst(m);
        RebalKeeps(m);
      }
  }

  /** Rebalancing a node whose right subtree is two levels taller and leaning one way. */
  lemma RightHeavyFix(l: Tree, k: nat, x: int, r: Tree)
    requires Balanced(l) && Balanced(r)
    requires Height(r) == Height(l) + 2 && Bf(r) != 0
    ensures Balanced(Rebal(Br(l, k, x, r)))
    ensures Height(Rebal(Br(l, k, x, r))) == Height(l) + 2
  {
    var Y, C := r.left, r.right;
    if Bf(r) == -1 {
      assert Height(C) == Height(l) + 1 && Height(Y) == Height(l);
      assert Rebal(Br(l, k, x, r)) == Br(Br(l, k, x, Y), r.idx, r.value, C);
    } else {
      assert Height(Y) == Height(l) + 1 && Height(C) == Height(l);
      assert Y.Br?;
      var Y1, Y2 := Y.left, Y.right;
      assert Rebal(Br(l, k, x, r)) == Br(Br(l, k, x, Y1), Y.idx, Y.value, Br(Y2, r.idx, r.value, C));
    }
  }

  /** The mirror image of RightHeavyFix. */
  lemma LeftHeavyFix(l: Tree, k: nat, x: int, r: Tree)
    requires Balanced(l) && Balanced(r)
    requires Height(l) == Height(r) + 2 && Bf(l) != 0
    ensures Balanced(Rebal(Br(l, k, x, r)))
    ensures Height(Rebal(Br(l, k, x, r))) == Height(r) + 2
  {
    var C, Y := l.left, l.right;
    if Bf(l) == 1 {
      assert Height(C) == Height(r) + 1 && Height(Y) == Height(r);
      assert Rebal(Br(l, k, x, r)) == Br(C, l.idx, l.value, Br(Y, k, x, r));
    } else {
      assert Height(Y) == Height(r) + 1 && Height(C) == Height(r);
      assert Y.Br?;
      var Y1, Y2 := Y.left, Y.right;
      assert Rebal(Br(l, k, x, r)) == Br(Br(C, l.idx, l.value, Y1), Y.idx, Y.value, Br(Y2, k, x, r));
    }
  }

  /**
   * The AVL insertion theorem: inserting into a balanced tree gives a balanced
   * tree at most one level taller, and a subtree that grew (other than a new
   * leaf) leans to one side.
   */
  lemma {:induction false} AvlInsertBalanced(t: Tree, v: int, n: nat)
    requires Balanced(t)
    ensures Balanced(AvlInsert(t, v, n))
    ensures Height(t) <= Height(AvlInsert(t, v, n)) <= Height(t) + 1
    ensures Height(AvlInsert(t, v, n)) == Height(t) + 1 && t.Br? ==> Bf(AvlInsert(t, v, n)) != 0
  {
    match t
    case Nil =>
    case Br(l, k, x, r) =>
      if v < x {
        AvlInsertBalanced(l, v, n);
        var p := Br(AvlInsert(l, v, n), k, x, r);
        if Bf(p) == 2 {
          assert Height(l) == Height(r) + 1 && l.Br?;
          LeftHeavyFix(AvlInsert(l, v, n), k, x, r);
        }
      } else if x < v {
        AvlInsertBalanced(r, v, n);
        var p := Br(l, k, x, AvlInsert(r, v, n));
        if Bf(p) == -2 {
          assert Height(r) == Height(l) + 1 && r.Br?;
          RightHeavyFix(l, k, x, AvlInsert(r, v, n));
        }
      }
  }

  /**
   * Insertion below the top of `t` with the rebalancing step at the top still
   * to do: the state of a node on the insertion path when the walk back up
   * reaches it.
   */
  function Descend(t: Tree, v: int, n: nat): Tree
    requires t.Br?
  {
    if v < t.value then Br(AvlInsert(t.left, v, n), t.idx, t.value, t.right)
    else Br(t.left, t.idx, t.value, AvlInsert(t.right, v, n))
  }

  /**
   * Before the rebalancing step at a node on the insertion path, its balance
   * factor is at most 2 in magnitude: the arena code's "invalid balance factor"
   * failure cannot happen. And the step completes the insertion at that node.
   */
  lemma PendingBf(t: Tree, v: int, n: nat)
    requires Balanced(t) && t.Br?
    ensures -2 <= Bf(Descend(t, v, n)) <= 2
    ensures v != t.value ==> Rebal(Descend(t, v, n)) == AvlInsert(t, v, n)
  {
    AvlInsertBalanced(t.left, v, n);
    AvlInsertBalanced(t.right, v, n);
  }

  /**
   * The state of the walk from a new leaf back up to the root, at the node
   * `s` found at the hole of `z`, where the old tree had `tz`: either the
   * insertion is complete at that node, or only the rebalancing step at the
   * node itself is still to do (`pending`).
   */
  ghost predicate Walk(told: Tree, v: int, n: nat, z: Path, s: Tree, tz: Tree, pending: bool)
  {
    s.Br? && told == Plug(z, tz) && Admits(z, v) &&
    if pending then tz.Br? && tz.value != v && s == Descend(tz, v, n) else s == AvlInsert(tz, v, n)
  }

  /** The walk starts at the new leaf, where the old tree had the empty slot. */
  lemma WalkStart(told: Tree, v: int, n: nat, z: Path)
    requires told == Plug(z, Nil) && Admits(z, v)
    ensures Walk(told, v, n, z, Br(Nil, n, v, Nil), Nil, false)
  {
  }

  /** A node found in balance needs no rebalancing step: the insertion is complete there. */
  lemma WalkBalanced(told: Tree, v: int, n: nat, z: Path, s: Tree, tz: Tree, pending: bool)
    requires Walk(told, v, n, z, s, tz, pending) && Balanced(told) && -1 <= Bf(s) <= 1
    ensures Walk(told, v, n, z, s, tz, false)
  {
    if pending {
      BalancedSub(z, tz);
      PendingBf(tz, v, n);
    }
  }

  /**
   * A node found out of balance is one whose rebalancing step is pending;
   * its balance factor is -2 or 2, and the step completes the insertion there.
   */
  lemma WalkRebalance(told: Tree, v: int, n: nat, z: Path, s: Tree, tz: Tree, pending: bool)
    requires Walk(told, v, n, z, s, tz, pending) && Balanced(told) && !(-1 <= Bf(s) <= 1)
    ensures pending && (Bf(s) == 2 || Bf(s) == -2)
    ensures Walk(told, v, n, z, Rebal(s), tz, false)
  {
    BalancedSub(z, tz);
    if pending {
      PendingBf(tz, v, n);
    } else {
      AvlInsertBalanced(tz, v, n);
    }
  }

  /** From a node where the insertion is complete the walk moves to its parent, whose step is pending. */
  lemma WalkUp(told: Tree, v: int, n: nat, z: Path, s: Tree, tz: Tree)
    requires Walk(told, v, n, z, s, tz, false) && z != []
    ensures Walk(told, v, n, z[1..], Fill(z[0], s), Fill(z[0], tz), true)
  {
  }

  /** At the root, a complete insertion is the insertion into the whole old tree. */
  lemma WalkDone(told: Tree, v: int, n: nat, s: Tree, tz: Tree)
    requires Walk(told, v, n, [], s, tz, false)
    ensures s == AvlInsert(told, v, n)
  {
  }
}
