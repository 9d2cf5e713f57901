/** Optional handles: a missing child, a missing parent, an empty tree. */
module Wrappers {
  datatype Option<+T> = None | Some(value: T)
}

/**
 * The ghost view of the node arena: an algebraic binary tree whose nodes
 * carry the arena handle and the stored value, and paths (zippers) that
 * locate a subtree inside a bigger tree.
 */
module Shape {
  import opened Wrappers

  datatype Tree = Nil | Br(left: Tree, idx: nat, value: int, right: Tree)

  /** One step from a subtree up to its parent: the hole is the parent's left or right child. */
  datatype Frame =
    | HoleLeft(idx: nat, value: int, sibling: Tree)
    | HoleRight(sibling: Tree, idx: nat, value: int)

  /** A path from a subtree up to the root, innermost frame first. */
  type Path = seq<Frame>

  function Top(t: Tree): Option<nat>
  {
    if t.Nil? then None else Some(t.idx)
  }

  function Fill(f: Frame, t: Tree): Tree
  {
    match f
    case HoleLeft(k, x, s) => Br(t, k, x, s)
    case HoleRight(s, k, x) => Br(s, k, x, t)
  }

  /** The whole tree rebuilt from a subtree and the path above it. */
  function Plug(z: Path, t: Tree): Tree
    decreases |z|
  {
    if z == [] then t else Plug(z[1..], Fill(z[0], t))
  }

  /** Handle of the node whose child slot is the hole. */
  function HoleParent(z: Path): Option<nat>
  {
    if z == [] then None else Some(z[0].idx)
  }

  function Max(a: int, b: int): int
  {
    if a < b then b else a
  }

  function Values(t: Tree): set<int>
  {
    match t
    case Nil => {}
    case Br(l, _, x, r) => Values(l) + {x} + Values(r)
  }

  function Indices(t: Tree): set<nat>
  {
    match t
    case Nil => {}
    case Br(l, k, _, r) => Indices(l) + {k} + Indices(r)
  }

  function InOrder(t: Tree): seq<int>
  {
    match t
    case Nil => []
    case Br(l, _, x, r) => InOrder(l) + [x] + InOrder(r)
  }

  /** Height of a subtree; the empty tree has height -1 and a leaf height 0. */
  function Height(t: Tree): (h: int)
    ensures h >= -1
  {
    match t
    case Nil => -1
    case Br(l, _, _, r) => 1 + Max(Height(l), Height(r))
  }

  /** Left height minus right height. */
  function Bf(t: Tree): int
  {
    match t
    case Nil => 0
    case Br(l, _, _, r) => Height(l) - Height(r)
  }

  /** No handle occurs twice. */
  ghost predicate Distinct(t: Tree)
  {
    match t
    case Nil => true
    case Br(l, k, _, r) =>
      Distinct(l) && Distinct(r) && k !in Indices(l) && k !in Indices(r) && Indices(l) !! Indices(r)
  }

  /** Search-tree order: left values below the node's value, right values above it. */
  ghost predicate Bst(t: Tree)
  {
    match t
    case Nil => true
    case Br(l, _, x, r) =>
      Bst(l) && Bst(r) && (forall y | y in Values(l) :: y < x) && (forall y | y in Values(r) :: x < y)
  }

  /** AVL balance: every node's balance factor lies in [-1, 1]. */
  ghost predicate Balanced(t: Tree)
  {
    match t
    case Nil => true
    case Br(l, _, _, r) => -1 <= Height(l) - Height(r) <= 1 && Balanced(l) && Balanced(r)
  }

  ghost predicate StrictlyIncreasing(s: seq<int>)
  {
    forall i, j | 0 <= i < j < |s| :: s[i] < s[j]
  }

  /** Handles of the frames and of their sibling subtrees. */
  function PathIdx(z: Path): set<nat>
    decreases |z|
  {
    if z == [] then {} else {z[0].idx} + Indices(z[0].sibling) + PathIdx(z[1..])
  }

  /** Handles of the frames only: the strict ancestors of the hole. */
  function FrameIdx(z: Path): set<nat>
    decreases |z|
  {
    if z == [] then {} else {z[0].idx} + FrameIdx(z[1..])
  }

  /** `v` lies on the hole's side of every frame: it is where a search for `v` descends. */
  ghost predicate Admits(z: Path, v: int)
    decreases |z|
  {
    z == [] ||
    ((if z[0].HoleLeft? then v < z[0].value else z[0].value < v) && Admits(z[1..], v))
  }

  ghost predicate DistinctPath(z: Path)
    decreases |z|
  {
    z == [] ||
    (Distinct(z[0].sibling) && z[0].idx !in Indices(z[0].sibling) &&
     ({z[0].idx} + Indices(z[0].sibling)) !! PathIdx(z[1..]) && DistinctPath(z[1..]))
  }

  lemma {:induction false} IndicesPlug(z: Path, t: Tree)
    ensures Indices(Plug(z, t)) == Indices(t) + PathIdx(z)
    decreases |z|
  {
    if z != [] {
      IndicesPlug(z[1..], Fill(z[0], t));
    }
  }

  lemma {:induction false} DistinctPlug(z: Path, t: Tree)
    ensures Distinct(Plug(z, t)) <==> Distinct(t) && DistinctPath(z) && Indices(t) !! PathIdx(z)
    decreases |z|
  {
    if z != [] {
      DistinctPlug(z[1..], Fill(z[0], t));
    }
  }

  /** Replacing the subtree at the hole by one with the same in-order sequence keeps the whole in-order sequence. */
  lemma {:induction false} InOrderPlug(z: Path, t: Tree, u: Tree)
    requires InOrder(t) == InOrder(u)
    ensures InOrder(Plug(z, t)) == InOrder(Plug(z, u))
    decreases |z|
  {
    if z != [] {
      InOrderPlug(z[1..], Fill(z[0], t), Fill(z[0], u));
    }
  }

  /** Replacing the subtree at the hole by one with the same values keeps the whole tree's values. */
  lemma {:induction false} ValuesPlug(z: Path, t: Tree, u: Tree)
    requires Values(t) == Values(u)
    ensures Values(Plug(z, t)) == Values(Plug(z, u))
    decreases |z|
  {
    if z != [] {
      ValuesPlug(z[1..], Fill(z[0], t), Fill(z[0], u));
    }
  }

  /** A non-empty path fixes the root of the whole tree, whatever fills the hole. */
  lemma {:induction false} TopPlug(z: Path, t: Tree, u: Tree)
    requires z != []
    ensures Plug(z, t).Br? && Top(Plug(z, t)) == Top(Plug(z, u))
    decreases |z|
  {
    if |z| > 1 {
      TopPlug(z[1..], Fill(z[0], t), Fill(z[0], u));
    }
  }

  /** In a search tree, every value of the subtree at the hole lies where the path leads. */
  lemma {:induction false} BstAdmits(z: Path, t: Tree)
    requires Bst(Plug(z, t))
    ensures Bst(t)
    ensures forall y | y in Values(t) :: Admits(z, y)
    decreases |z|
  {
    if z != [] {
      BstAdmits(z[1..], Fill(z[0], t));
    }
  }

  /**
   * The hole may be refilled by any search tree whose values either were there
   * before or are admitted by the path.
   */
  lemma {:induction false} BstReplace(z: Path, t: Tree, u: Tree)
    requires Bst(Plug(z, t)) && Bst(u)
    requires forall y | y in Values(u) :: y in Values(t) || Admits(z, y)
    ensures Bst(Plug(z, u))
    decreases |z|
  {
    if z != [] {
      BstAdmits(z[1..], Fill(z[0], t));
      var f := z[0];
      assert Bst(Fill(f, u)) by {
        forall y | y in Values(u) ensures if f.HoleLeft? then y < f.value else f.value < y {
          if y !in Values(t) {
            assert Admits(z, y);
          }
        }
      }
      BstReplace(z[1..], Fill(f, t), Fill(f, u));
    }
  }

  /** A value admitted by the path is in the whole tree exactly when it is in the subtree at the hole. */
  lemma {:induction false} AdmitsAbsent(z: Path, t: Tree, v: int)
    requires Bst(Plug(z, t)) && Admits(z, v)
    ensures v in Values(Plug(z, t)) <==> v in Values(t)
    decreases |z|
  {
    if z != [] {
      BstAdmits(z[1..], Fill(z[0], t));
      AdmitsAbsent(z[1..], Fill(z[0], t), v);
      assert v !in Values(z[0].sibling) && v != z[0].value;
    }
  }

  /**
   * If `w`, a value of the subtree at the hole, is the least value of that
   * subtree above `v`, and the path admits `v`, then `w` is the least value
   * of the whole tree above `v`.
   */
  lemma {:induction false} LeastAbove(z: Path, t: Tree, v: int, w: int)
    requires Bst(Plug(z, t)) && Admits(z, v) && v < w && w in Values(t)
    requires forall y | y in Values(t) && v < y :: w <= y
    ensures forall y | y in Values(Plug(z, t)) && v < y :: w <= y
    decreases |z|
  {
    if z != [] {
      var f := z[0];
      BstAdmits(z, t);
      assert Admits(z, w);
      BstAdmits(z[1..], Fill(f, t));
      forall y | y in Values(Fill(f, t)) && v < y
        ensures w <= y
      {
        assert y in Values(t) || y == f.value || y in Values(f.sibling);
      }
      LeastAbove(z[1..], Fill(f, t), v, w);
    }
  }

  /** The mirror image of LeastAbove: the greatest value below `v`. */
  lemma {:induction false} GreatestBelow(z: Path, t: Tree, v: int, w: int)
    requires Bst(Plug(z, t)) && Admits(z, v) && w < v && w in Values(t)
    requires forall y | y in Values(t) && y < v :: y <= w
    ensures forall y | y in Values(Plug(z, t)) && y < v :: y <= w
    decreases |z|
  {
    if z != [] {
      var f := z[0];
      BstAdmits(z, t);
      assert Admits(z, w);
      BstAdmits(z[1..], Fill(f, t));
      forall y | y in Values(Fill(f, t)) && y < v
        ensures y <= w
      {
        assert y in Values(t) || y == f.value || y in Values(f.sibling);
      }
      GreatestBelow(z[1..], Fill(f, t), v, w);
    }
  }

  /**
   * A search for an absent `v` that stops at an empty slot stops below `v`'s
   * in-order neighbour on the slot's side: the least stored value above `v`
   * for a left slot, the greatest below `v` for a right slot.
   */
  lemma NeighbourAtHole(z: Path, v: int)
    requires Bst(Plug(z, Nil)) && Admits(z, v) && z != []
    ensures z[0].HoleLeft? ==> forall y | y in Values(Plug(z, Nil)) && v < y :: z[0].value <= y
    ensures z[0].HoleRight? ==> forall y | y in Values(Plug(z, Nil)) && y < v :: y <= z[0].value
  {
    var f := z[0];
    assert Plug(z, Nil) == Plug(z[1..], Fill(f, Nil));
    BstAdmits(z[1..], Fill(f, Nil));
    assert Values(Fill(f, Nil)) == {f.value} + Values(f.sibling);
    if f.HoleLeft? {
      LeastAbove(z[1..], Fill(f, Nil), v, f.value);
    } else {
      GreatestBelow(z[1..], Fill(f, Nil), v, f.value);
    }
  }

  /** Plugging through a path `y` below a path `z` plugs through `y + z`. */
  lemma {:induction false} PlugAppend(y: Path, z: Path, t: Tree)
    ensures Plug(y + z, t) == Plug(z, Plug(y, t))
    decreases |y|
  {
    if y != [] {
      assert (y + z)[0] == y[0] && (y + z)[1..] == y[1..] + z;
      PlugAppend(y[1..], z, Fill(y[0], t));
    } else {
      assert y + z == z;
    }
  }

  /** Every handle of a tree is the top of one of its subtrees. */
  lemma {:induction false} FindIdx(t: Tree, k: nat) returns (z: Path, s: Tree)
    requires k in Indices(t)
    ensures s.Br? && s.idx == k && Plug(z, s) == t
  {
    if t.idx == k {
      z, s := [], t;
    } else if k in Indices(t.left) {
      var z';
      z', s := FindIdx(t.left, k);
      z := z' + [HoleLeft(t.idx, t.value, t.right)];
      PlugAppend(z', [HoleLeft(t.idx, t.value, t.right)], s);
    } else {
      var z';
      z', s := FindIdx(t.right, k);
      z := z' + [HoleRight(t.left, t.idx, t.value)];
      PlugAppend(z', [HoleRight(t.left, t.idx, t.value)], s);
    }
  }

  lemma {:induction false} BalancedSub(z: Path, t: Tree)
    requires Balanced(Plug(z, t))
    ensures Balanced(t)
    decreases |z|
  {
    if z != [] {
      BalancedSub(z[1..], Fill(z[0], t));
    }
  }

  /** The in-order sequence of a search tree lists its values, strictly ascending. */
  lemma {:induction false} InOrderSorted(t: Tree)
    requires Bst(t)
    ensures StrictlyIncreasing(InOrder(t))
    ensures forall y :: y in InOrder(t) <==> y in Values(t)
  {
    match t
    case Nil =>
    case Br(l, _, x, r) =>
      InOrderSorted(l);
      InOrderSorted(r);
      var s := InOrder(t);
      assert s == InOrder(l) + [x] + InOrder(r);
      forall i, j | 0 <= i < j < |s| ensures s[i] < s[j] {
        var n := |InOrder(l)|;
        if j < n {
          assert s[i] == InOrder(l)[i] && s[j] == InOrder(l)[j];
        } else if j == n {
          assert s[i] == InOrder(l)[i] && InOrder(l)[i] in InOrder(l);
        } else if i < n {
          assert s[i] == InOrder(l)[i] && InOrder(l)[i] in InOrder(l);
          assert s[j] == InOrder(r)[j - n - 1] && InOrder(r)[j - n - 1] in InOrder(r);
        } else if i == n {
          assert s[j] == InOrder(r)[j - n - 1] && InOrder(r)[j - n - 1] in InOrder(r);
        } else {
          assert s[i] == InOrder(r)[i - n - 1] && s[j] == InOrder(r)[j - n - 1];
        }
      }
  }
}
