/**
 * The node arena: a sequence of node records whose parent and child links are
 * handles (indices) into the same sequence, and the predicates that tie an
 * arena to the algebraic tree it stores.
 */
module Arena {
  import opened Wrappers
  import opened Shape

  /** One arena slot; `height` caches the height of the subtree rooted here (a leaf has 0). */
  datatype Node = Node(value: int, parent: Option<nat>, leftChild: Option<nat>, rightChild: Option<nat>, height: int)

  /** Every node of `t` sits at its handle with its value, its parent `p` and its children's handles. */
  ghost predicate Linked(nodes: seq<Node>, t: Tree, p: Option<nat>)
  {
    match t
    case Nil => true
    case Br(l, k, x, r) =>
      k < |nodes| && nodes[k].value == x && nodes[k].parent == p &&
      nodes[k].leftChild == Top(l) && nodes[k].rightChild == Top(r) &&
      Linked(nodes, l, Some(k)) && Linked(nodes, r, Some(k))
  }

  /** The frames of `z` are linked as in Linked, with `hole` the handle in the hole's slot. */
  ghost predicate LinkedPath(nodes: seq<Node>, z: Path, hole: Option<nat>)
    decreases |z|
  {
    z == [] ||
    (var k := z[0].idx;
     k < |nodes| && nodes[k].value == z[0].value && nodes[k].parent == HoleParent(z[1..]) &&
     (if z[0].HoleLeft? then nodes[k].leftChild == hole && nodes[k].rightChild == Top(z[0].sibling)
      else nodes[k].leftChild == Top(z[0].sibling) && nodes[k].rightChild == hole) &&
     Linked(nodes, z[0].sibling, Some(k)) && LinkedPath(nodes, z[1..], Some(k)))
  }

  /** Every cached height in `t` is the height of the subtree below it. */
  ghost predicate HeightsOk(nodes: seq<Node>, t: Tree)
  {
    match t
    case Nil => true
    case Br(l, k, _, r) =>
      k < |nodes| && nodes[k].height == Height(t) && HeightsOk(nodes, l) && HeightsOk(nodes, r)
  }

  ghost predicate SiblingsOk(nodes: seq<Node>, z: Path)
    decreases |z|
  {
    z == [] || (HeightsOk(nodes, z[0].sibling) && SiblingsOk(nodes, z[1..]))
  }

  function SiblingIdx(z: Path): set<nat>
    decreases |z|
  {
    if z == [] then {} else Indices(z[0].sibling) + SiblingIdx(z[1..])
  }

  /**
   * The arena stores `shape`: links agree with it, every handle occurs once and
   * every arena slot is reachable from `root`, values are in search order.
   */
  ghost predicate Shaped(nodes: seq<Node>, root: Option<nat>, shape: Tree)
  {
    Linked(nodes, shape, None) && Distinct(shape) && (forall k: nat :: k in Indices(shape) <==> k < |nodes|) &&
    root == Top(shape) && Bst(shape)
  }

  /** Shaped, and every cached height is correct. */
  ghost predicate Repr(nodes: seq<Node>, root: Option<nat>, shape: Tree)
  {
    Shaped(nodes, root, shape) && HeightsOk(nodes, shape)
  }

  /** `a` and `b` hold the same records at the handles in `s`. */
  ghost predicate Agree(a: seq<Node>, b: seq<Node>, s: set<nat>)
  {
    forall k | k in s && k < |a| :: k < |b| && a[k] == b[k]
  }

  ghost predicate AgreeHeights(a: seq<Node>, b: seq<Node>, s: set<nat>)
  {
    forall k | k in s && k < |a| :: k < |b| && a[k].height == b[k].height
  }

  /** `b` differs from `a` at most in cached heights. */
  ghost predicate SameLinks(a: seq<Node>, b: seq<Node>)
  {
    |a| == |b| &&
    forall k | 0 <= k < |a| ::
      a[k].value == b[k].value && a[k].parent == b[k].parent &&
      a[k].leftChild == b[k].leftChild && a[k].rightChild == b[k].rightChild
  }

  /** Cached height of a child slot, -1 for a missing child. */
  function SlotHeight(nodes: seq<Node>, c: Option<nat>): int
    requires c.Some? ==> c.value < |nodes|
  {
    if c.None? then -1 else nodes[c.value].height
  }

  /** The height a node gets from its children's cached heights (0 with no children). */
  function ComputeHeight(nodes: seq<Node>, l: Option<nat>, r: Option<nat>): (h: int)
    requires l.Some? ==> l.value < |nodes|
    requires r.Some? ==> r.value < |nodes|
    ensures h == 1 + Max(SlotHeight(nodes, l), SlotHeight(nodes, r))
  {
    var leftHeight := if l.Some? then nodes[l.value].height + 1 else 0;
    var rightHeight := if r.Some? then nodes[r.value].height + 1 else 0;
    Max(leftHeight, rightHeight)
  }

  /**
   * Left cached height minus right cached height, a missing child counting
   * -1. Its sign names the child whose height decides the node's height.
   */
  function BalanceFactor(nodes: seq<Node>, node: Node): (bf: int)
    requires node.leftChild.Some? ==> node.leftChild.value < |nodes|
    requires node.rightChild.Some? ==> node.rightChild.value < |nodes|
    ensures bf >= 0 ==> ComputeHeight(nodes, node.leftChild, node.rightChild) == 1 + SlotHeight(nodes, node.leftChild)
    ensures bf <= 0 ==> ComputeHeight(nodes, node.leftChild, node.rightChild) == 1 + SlotHeight(nodes, node.rightChild)
  {
    SlotHeight(nodes, node.leftChild) - SlotHeight(nodes, node.rightChild)
  }

  /** A node is balanced when its balance factor lies strictly between -2 and 2. */
  function IsBalanced(nodes: seq<Node>, index: nat): (b: bool)
    requires index < |nodes|
    requires nodes[index].leftChild.Some? ==> nodes[index].leftChild.value < |nodes|
    requires nodes[index].rightChild.Some? ==> nodes[index].rightChild.value < |nodes|
    ensures b <==> -1 <= BalanceFactor(nodes, nodes[index]) <= 1
  {
    var bf := BalanceFactor(nodes, nodes[index]);
    (if bf < 0 then -bf else bf) < 2
  }

  // ---------------------------------------------------------------- paths

  lemma {:induction false} LinkedPlug(nodes: seq<Node>, z: Path, t: Tree)
    ensures Linked(nodes, Plug(z, t), None) <==> Linked(nodes, t, HoleParent(z)) && LinkedPath(nodes, z, Top(t))
    decreases |z|
  {
    if z != [] {
      LinkedPlug(nodes, z[1..], Fill(z[0], t));
    }
  }

  lemma {:induction false} HeightsPlug(nodes: seq<Node>, z: Path, t: Tree)
    requires HeightsOk(nodes, Plug(z, t))
    ensures HeightsOk(nodes, t) && SiblingsOk(nodes, z)
    decreases |z|
  {
    if z != [] {
      HeightsPlug(nodes, z[1..], Fill(z[0], t));
    }
  }

  lemma {:induction false} SiblingIdxInPathIdx(z: Path)
    ensures SiblingIdx(z) <= PathIdx(z)
    decreases |z|
  {
    if z != [] {
      SiblingIdxInPathIdx(z[1..]);
    }
  }

  // ---------------------------------------------------------------- framing

  lemma {:induction false} LinkedFrame(a: seq<Node>, b: seq<Node>, t: Tree, p: Option<nat>)
    requires Linked(a, t, p) && Agree(a, b, Indices(t))
    ensures Linked(b, t, p)
  {
    match t
    case Nil =>
    case Br(l, k, _, r) =>
      LinkedFrame(a, b, l, Some(k));
      LinkedFrame(a, b, r, Some(k));
  }

  lemma {:induction false} LinkedPathFrame(a: seq<Node>, b: seq<Node>, z: Path, h: Option<nat>)
    requires LinkedPath(a, z, h) && Agree(a, b, PathIdx(z))
    ensures LinkedPath(b, z, h)
    decreases |z|
  {
    if z != [] {
      LinkedFrame(a, b, z[0].sibling, Some(z[0].idx));
      LinkedPathFrame(a, b, z[1..], Some(z[0].idx));
    }
  }

  lemma {:induction false} HeightsFrame(a: seq<Node>, b: seq<Node>, t: Tree)
    requires HeightsOk(a, t) && AgreeHeights(a, b, Indices(t))
    ensures HeightsOk(b, t)
  {
    match t
    case Nil =>
    case Br(l, _, _, r) =>
      HeightsFrame(a, b, l);
      HeightsFrame(a, b, r);
  }

  lemma {:induction false} SiblingsFrame(a: seq<Node>, b: seq<Node>, z: Path)
    requires SiblingsOk(a, z) && AgreeHeights(a, b, SiblingIdx(z))
    ensures SiblingsOk(b, z)
    decreases |z|
  {
    if z != [] {
      HeightsFrame(a, b, z[0].sibling);
      SiblingsFrame(a, b, z[1..]);
    }
  }

  lemma {:induction false} LinkedSameLinks(a: seq<Node>, b: seq<Node>, t: Tree, p: Option<nat>)
    requires Linked(a, t, p) && SameLinks(a, b)
    ensures Linked(b, t, p)
  {
    match t
    case Nil =>
    case Br(l, k, _, r) =>
      LinkedSameLinks(a, b, l, Some(k));
      LinkedSameLinks(a, b, r, Some(k));
  }

  /** Records untouched outside two handles and two optional handles agree on any set that avoids all four. */
  lemma AgreeExcept(a: seq<Node>, b: seq<Node>, s: set<nat>, i: nat, j: nat, y: Option<nat>, p: Option<nat>)
    requires |b| == |a|
    requires forall k | 0 <= k < |a| && k != i && k != j && y != Some(k) && p != Some(k) :: b[k] == a[k]
    requires i !in s && j !in s && (y.Some? ==> y.value !in s) && (p.Some? ==> p.value !in s)
    ensures Agree(a, b, s)
  {
  }

  /** A height write leaves every link and value alone. */
  lemma HeightWriteSameLinks(a: seq<Node>, k: nat, h: int)
    requires k < |a|
    ensures SameLinks(a, a[k := a[k].(height := h)])
  {
  }

  /** Rewriting cached heights keeps the arena shaped like the same tree. */
  lemma ShapedSameLinks(a: seq<Node>, b: seq<Node>, root: Option<nat>, t: Tree)
    requires Shaped(a, root, t) && SameLinks(a, b)
    ensures Shaped(b, root, t)
  {
    LinkedSameLinks(a, b, t, None);
  }

  /** A height write at a handle outside `t` keeps `t`'s cached heights correct. */
  lemma HeightWriteElsewhere(a: seq<Node>, k: nat, h: int, t: Tree)
    requires HeightsOk(a, t) && k < |a| && k !in Indices(t)
    ensures HeightsOk(a[k := a[k].(height := h)], t)
  {
    HeightsFrame(a, a[k := a[k].(height := h)], t);
  }

  /** A height write at a handle outside the siblings of `z` keeps their cached heights correct. */
  lemma SiblingsWriteElsewhere(a: seq<Node>, k: nat, h: int, z: Path)
    requires SiblingsOk(a, z) && k < |a| && k !in SiblingIdx(z)
    ensures SiblingsOk(a[k := a[k].(height := h)], z)
  {
    SiblingsFrame(a, a[k := a[k].(height := h)], z);
  }

  /** A subtree whose top node only got a new parent link is linked under that parent. */
  lemma LinkedReparent(a: seq<Node>, b: seq<Node>, t: Tree, p: Option<nat>, q: Option<nat>)
    requires Linked(a, t, p) && Distinct(t) && t.Br?
    requires Agree(a, b, Indices(t.left) + Indices(t.right))
    requires t.idx < |b| && b[t.idx] == a[t.idx].(parent := q)
    ensures Linked(b, t, q)
  {
    LinkedFrame(a, b, t.left, Some(t.idx));
    LinkedFrame(a, b, t.right, Some(t.idx));
  }

  // ---------------------------------------------------------------- heights

  /** Under correct links and heights, compute_height of a node's children is the node's subtree height. */
  lemma ComputeHeightOk(nodes: seq<Node>, t: Tree, p: Option<nat>)
    requires Linked(nodes, t, p) && t.Br? && HeightsOk(nodes, t.left) && HeightsOk(nodes, t.right)
    ensures var n := nodes[t.idx];
      (n.leftChild.Some? ==> n.leftChild.value < |nodes|) && (n.rightChild.Some? ==> n.rightChild.value < |nodes|) &&
      ComputeHeight(nodes, n.leftChild, n.rightChild) == Height(t)
  {
  }

  /** Under correct links and heights, the cached balance factor is the subtree's balance factor. */
  lemma BalanceFactorOk(nodes: seq<Node>, t: Tree, p: Option<nat>)
    requires Linked(nodes, t, p) && t.Br? && HeightsOk(nodes, t)
    ensures var n := nodes[t.idx];
      (n.leftChild.Some? ==> n.leftChild.value < |nodes|) && (n.rightChild.Some? ==> n.rightChild.value < |nodes|) &&
      BalanceFactor(nodes, n) == Bf(t) &&
      (IsBalanced(nodes, t.idx) <==> -1 <= Bf(t) <= 1)
  {
  }

  // ---------------------------------------------------------------- relinking

  /** The arena after the hole's slot in the innermost frame is pointed at handle `n`. */
  function Attach(nodes: seq<Node>, z: Path, n: nat): (b: seq<Node>)
    requires z != [] ==> z[0].idx < |nodes|
    ensures |b| == |nodes| && forall k | 0 <= k < |nodes| :: b[k].value == nodes[k].value && b[k].parent == nodes[k].parent
    ensures forall k | 0 <= k < |nodes| && (z == [] || k != z[0].idx) :: b[k] == nodes[k]
  {
    if z == [] then nodes
    else
      var k := z[0].idx;
      nodes[k := if z[0].HoleLeft? then nodes[k].(leftChild := Some(n)) else nodes[k].(rightChild := Some(n))]
  }

  /** Pointing the hole's slot at a new handle keeps the path linked around the new hole. */
  lemma LinkedPathRetarget(a: seq<Node>, b: seq<Node>, z: Path, h: Option<nat>, h': Option<nat>)
    requires LinkedPath(a, z, h) && z != [] && DistinctPath(z)
    requires Agree(a, b, PathIdx(z[1..]) + Indices(z[0].sibling))
    requires z[0].idx < |b|
    requires b[z[0].idx] == if z[0].HoleLeft? then a[z[0].idx].(leftChild := h') else a[z[0].idx].(rightChild := h')
    ensures LinkedPath(b, z, h')
  {
    LinkedFrame(a, b, z[0].sibling, Some(z[0].idx));
    LinkedPathFrame(a, b, z[1..], Some(z[0].idx));
  }

  /**
   * Appending a leaf for `v` at the end of the arena, under the node where a
   * search for `v` stopped, keeps the arena a well-linked search tree; only the
   * heights along the path still have to be recomputed.
   */
  lemma AttachLeaf(nodes: seq<Node>, root: Option<nat>, z: Path, v: int)
    requires Repr(nodes, root, Plug(z, Nil)) && Admits(z, v)
    ensures z != [] ==> z[0].idx < |nodes|
    ensures var n := |nodes|;
      var nodes' := Attach(nodes, z, n) + [Node(v, HoleParent(z), None, None, 0)];
      var root' := if n == 0 then Some(0) else root;
      var leaf := Br(Nil, n, v, Nil);
      Shaped(nodes', root', Plug(z, leaf)) && HeightsOk(nodes', leaf) && SiblingsOk(nodes', z)
  {
    AttachShape(z, |nodes|, v, root);
    AttachLinked(nodes, z, v);
    AttachSiblings(nodes, z, v);
  }

  /** The tree-level half of AttachLeaf: handles, distinctness, the top and search order. */
  lemma AttachShape(z: Path, n: nat, v: int, root: Option<nat>)
    requires Distinct(Plug(z, Nil)) && (forall k: nat :: k in Indices(Plug(z, Nil)) <==> k < n)
    requires root == Top(Plug(z, Nil)) && Bst(Plug(z, Nil)) && Admits(z, v)
    ensures var leaf := Br(Nil, n, v, Nil);
      Distinct(Plug(z, leaf)) && (forall k: nat :: k in Indices(Plug(z, leaf)) <==> k < n + 1) &&
      (if n == 0 then Some(0) else root) == Top(Plug(z, leaf)) && Bst(Plug(z, leaf))
  {
    var leaf := Br(Nil, n, v, Nil);
    IndicesPlug(z, Nil);
    IndicesPlug(z, leaf);
    DistinctPlug(z, Nil);
    DistinctPlug(z, leaf);
    BstReplace(z, Nil, leaf);
    if z != [] {
      TopPlug(z, Nil, leaf);
      assert z[0].idx in PathIdx(z);
    } else {
      assert 0 !in Indices(Plug(z, Nil));
    }
  }

  /** The sibling subtrees along the path keep their heights when a leaf is attached. */
  lemma AttachSiblings(nodes: seq<Node>, z: Path, v: int)
    requires Linked(nodes, Plug(z, Nil), None) && HeightsOk(nodes, Plug(z, Nil))
    ensures z != [] ==> z[0].idx < |nodes|
    ensures SiblingsOk(Attach(nodes, z, |nodes|) + [Node(v, HoleParent(z), None, None, 0)], z)
  {
    var n := |nodes|;
    LinkedPlug(nodes, z, Nil);
    HeightsPlug(nodes, z, Nil);
    var nodes' := Attach(nodes, z, n) + [Node(v, HoleParent(z), None, None, 0)];
    assert forall k :: 0 <= k < n ==> nodes'[k].height == nodes[k].height;
    SiblingsFrame(nodes, nodes', z);
  }

  lemma AttachLinked(nodes: seq<Node>, z: Path, v: int)
    requires Linked(nodes, Plug(z, Nil), None) && Distinct(Plug(z, Nil))
    requires forall k: nat :: k in Indices(Plug(z, Nil)) <==> k < |nodes|
    ensures z != [] ==> z[0].idx < |nodes|
    ensures Linked(Attach(nodes, z, |nodes|) + [Node(v, HoleParent(z), None, None, 0)], Plug(z, Br(Nil, |nodes|, v, Nil)), None)
  {
    var n := |nodes|;
    var leaf := Br(Nil, n, v, Nil);
    LinkedPlug(nodes, z, Nil);
    DistinctPlug(z, Nil);
    var nodes' := Attach(nodes, z, n) + [Node(v, HoleParent(z), None, None, 0)];
    assert forall k :: 0 <= k < n && (z == [] || k != z[0].idx) ==> nodes'[k] == nodes[k];
    if z != [] {
      var k := z[0].idx;
      assert DistinctPath(z);
      assert k !in PathIdx(z[1..]) + Indices(z[0].sibling);
      assert Agree(nodes, nodes', PathIdx(z[1..]) + Indices(z[0].sibling));
      assert nodes'[k] == if z[0].HoleLeft? then nodes[k].(leftChild := Some(n)) else nodes[k].(rightChild := Some(n));
      LinkedPathRetarget(nodes, nodes', z, None, Some(n));
    }
    assert Linked(nodes', leaf, HoleParent(z));
    LinkedPlug(nodes', z, leaf);
  }

  /**
   * Replacing the subtree at the hole by another arrangement of the same nodes
   * keeps the arena shaped, once the replacement is linked below the hole's
   * parent and that parent's slot (or the root) names the replacement's top.
   */
  lemma Reshape(a: seq<Node>, b: seq<Node>, root: Option<nat>, root': Option<nat>, z: Path, t: Tree, u: Tree)
    requires Shaped(a, root, Plug(z, t)) && t.Br? && u.Br? && |b| == |a|
    requires Indices(u) == Indices(t) && Values(u) == Values(t) && Distinct(u) && Bst(u)
    requires Linked(b, u, HoleParent(z))
    requires z != [] ==> z[0].idx < |a| && Agree(a, b, PathIdx(z[1..]) + Indices(z[0].sibling))
    requires z != [] ==>
      b[z[0].idx] == if z[0].HoleLeft? then a[z[0].idx].(leftChild := Top(u)) else a[z[0].idx].(rightChild := Top(u))
    requires root' == if z == [] then Top(u) else root
    ensures Shaped(b, root', Plug(z, u))
  {
    LinkedPlug(a, z, t);
    DistinctPlug(z, t);
    DistinctPlug(z, u);
    IndicesPlug(z, t);
    IndicesPlug(z, u);
    BstAdmits(z, t);
    BstReplace(z, t, u);
    if z != [] {
      LinkedPathRetarget(a, b, z, Top(t), Top(u));
      TopPlug(z, t, u);
    }
    LinkedPlug(b, z, u);
  }
}
