/**
 * The record rewrites of the two single rotations, as functions on the arena.
 * They replay, write by write, what the rotation methods do to the node
 * records before the height walk; the rotation methods are specified by them
 * and the lemmas here say record by record what changed.
 */
module Surgery {
  import opened Wrappers
  import opened Shape
  import opened Arena

  /**
   * The slots a left rotation at `index` with right child `rightIndex` reads
   * are in range, and the records it rewrites (the two rotated nodes, the
   * right child's left child and the parent) are pairwise distinct.
   */
  predicate LeftRotatable(a: seq<Node>, index: nat, rightIndex: nat)
  {
    index < |a| && rightIndex < |a| && index != rightIndex &&
    a[index].rightChild == Some(rightIndex) &&
    (a[index].leftChild.Some? ==> a[index].leftChild.value < |a|) &&
    (var c := a[rightIndex].rightChild;
     c.Some? ==> c.value < |a| && c.value != index && c.value != rightIndex) &&
    (var y := a[rightIndex].leftChild;
     y.Some? ==> y.value < |a| && y.value != index && y.value != rightIndex) &&
    (var p := a[index].parent;
     p.Some? ==> p.value < |a| && p.value != index && p.value != rightIndex && a[rightIndex].leftChild != p)
  }

  /**
   * The arena after the writes of a left rotation: `index` takes the right
   * child's left subtree, whose top is re-parented to it; the right child
   * takes `index` as its left child; the parent's slot that named `index`
   * names the right child; both rotated nodes get their heights recomputed,
   * `index` first; the right child takes `index`'s parent and `index` takes
   * the right child as parent.
   */
  function LeftRelinked(a: seq<Node>, index: nat, rightIndex: nat): (b: seq<Node>)
    requires LeftRotatable(a, index, rightIndex)
    ensures |b| == |a| && forall k | 0 <= k < |a| :: b[k].value == a[k].value
  {
    var y, p := a[rightIndex].leftChild, a[index].parent;
    var a1 := a[index := a[index].(rightChild := y)];
    var a2 := if y.Some? then a1[y.value := a1[y.value].(parent := Some(index))] else a1;
    var a3 := a2[rightIndex := a2[rightIndex].(leftChild := Some(index))];
    var a4 := if p.Some? then
        (if a3[p.value].leftChild == Some(index) then a3[p.value := a3[p.value].(leftChild := Some(rightIndex))]
         else a3[p.value := a3[p.value].(rightChild := Some(rightIndex))])
      else a3;
    var hA := ComputeHeight(a, a[index].leftChild, y);
    var a5 := a4[index := a4[index].(height := hA)];
    var hB := ComputeHeight(a5, Some(index), a[rightIndex].rightChild);
    var a6 := a5[rightIndex := a5[rightIndex].(height := hB)];
    var a7 := a6[rightIndex := a6[rightIndex].(parent := p)];
    a7[index := a7[index].(parent := Some(rightIndex))]
  }

  /** Record by record, what a left rotation's writes change; every other record is unchanged. */
  lemma LeftRelinkedRecords(a: seq<Node>, index: nat, rightIndex: nat)
    requires LeftRotatable(a, index, rightIndex)
    ensures var b := LeftRelinked(a, index, rightIndex); var y := a[rightIndex].leftChild; var p := a[index].parent;
      |b| == |a| &&
      b[index] == a[index].(rightChild := y, parent := Some(rightIndex), height := ComputeHeight(a, a[index].leftChild, y)) &&
      b[rightIndex] == a[rightIndex].(leftChild := Some(index), parent := p, height := b[rightIndex].height) &&
      (y.Some? ==> b[y.value] == a[y.value].(parent := Some(index))) &&
      (p.Some? ==> (b[p.value] ==
        if a[p.value].leftChild == Some(index) then a[p.value].(leftChild := Some(rightIndex))
        else a[p.value].(rightChild := Some(rightIndex)))) &&
      forall k | 0 <= k < |a| && k != index && k != rightIndex && y != Some(k) && p != Some(k) :: b[k] == a[k]
  {
  }

  /** The mirror image of LeftRotatable, for a right rotation at `index` with left child `leftIndex`. */
  predicate RightRotatable(a: seq<Node>, index: nat, leftIndex: nat)
  {
    index < |a| && leftIndex < |a| && index != leftIndex &&
    a[index].leftChild == Some(leftIndex) &&
    (a[index].rightChild.Some? ==> a[index].rightChild.value < |a|) &&
    (var c := a[leftIndex].leftChild;
     c.Some? ==> c.value < |a| && c.value != index && c.value != leftIndex) &&
    (var y := a[leftIndex].rightChild;
     y.Some? ==> y.value < |a| && y.value != index && y.value != leftIndex) &&
    (var p := a[index].parent;
     p.Some? ==> p.value < |a| && p.value != index && p.value != leftIndex && a[leftIndex].rightChild != p)
  }

  /** The mirror image of LeftRelinked. */
  function RightRelinked(a: seq<Node>, index: nat, leftIndex: nat): (b: seq<Node>)
    requires RightRotatable(a, index, leftIndex)
    ensures |b| == |a| && forall k | 0 <= k < |a| :: b[k].value == a[k].value
  {
    var y, p := a[leftIndex].rightChild, a[index].parent;
    var a1 := a[index := a[index].(leftChild := y)];
    var a2 := if y.Some? then a1[y.value := a1[y.value].(parent := Some(index))] else a1;
    var a3 := a2[leftIndex := a2[leftIndex].(rightChild := Some(index))];
    var a4 := if p.Some? then
        (if a3[p.value].leftChild == Some(index) then a3[p.value := a3[p.value].(leftChild := Some(leftIndex))]
         else a3[p.value := a3[p.value].(rightChild := Some(leftIndex))])
      else a3;
    var hA := ComputeHeight(a, y, a[index].rightChild);
    var a5 := a4[index := a4[index].(height := hA)];
    var hB := ComputeHeight(a5, a[leftIndex].leftChild, Some(index));
    var a6 := a5[leftIndex := a5[leftIndex].(height := hB)];
    var a7 := a6[leftIndex := a6[leftIndex].(parent := p)];
    a7[index := a7[index].(parent := Some(leftIndex))]
  }

  /** The mirror image of LeftRelinkedRecords. */
  lemma RightRelinkedRecords(a: seq<Node>, index: nat, leftIndex: nat)
    requires RightRotatable(a, index, leftIndex)
    ensures var b := RightRelinked(a, index, leftIndex); var y := a[leftIndex].rightChild; var p := a[index].parent;
      |b| == |a| &&
      b[index] == a[index].(leftChild := y, parent := Some(leftIndex), height := ComputeHeight(a, y, a[index].rightChild)) &&
      b[leftIndex] == a[leftIndex].(rightChild := Some(index), parent := p, height := b[leftIndex].height) &&
      (y.Some? ==> b[y.value] == a[y.value].(parent := Some(index))) &&
      (p.Some? ==> (b[p.value] ==
        if a[p.value].leftChild == Some(index) then a[p.value].(leftChild := Some(leftIndex))
        else a[p.value].(rightChild := Some(leftIndex)))) &&
      forall k | 0 <= k < |a| && k != index && k != leftIndex && y != Some(k) && p != Some(k) :: b[k] == a[k]
  {
  }
}
