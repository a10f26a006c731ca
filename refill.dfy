/**
 * The refill step of erase (unrolled_list.h:395-399) and the floor it is
 * there to keep: every node holds at least RequiredNodeSize, K - K / 2,
 * elements (unrolled_list.h:565, 570), unless it is the only node.
 *
 * As written, the refill tests CanBeFilled, "the two nodes hold fewer than
 * 2 * RequiredNodeSize", which already implies that they fit in one node
 * (ChainModel.CanBeFilledImpliesCanBeMerged), so the merge before it has
 * run and the refill never does. A node that fits with neither neighbour
 * then stays below the floor (FloorLostAsWritten). The refill as evidently
 * meant runs when the two nodes hold at least 2 * RequiredNodeSize, so that
 * both can be filled; with it, erase keeps the floor (EraseFilledKeepsFloor).
 */
module Refill {
  import opened SeqOps
  import opened ChainModel

  /** Every node holds at least RequiredNodeSize elements. */
  ghost predicate AtFloor<T>(bs: seq<seq<T>>, K: nat)
  {
    forall i :: 0 <= i < |bs| ==> !NeedToFill(|bs[i]|, K)
  }

  /** The floor erase is meant to keep: every node at RequiredNodeSize or above, unless it is the only one. */
  ghost predicate Floored<T>(bs: seq<seq<T>>, K: nat)
  {
    |bs| <= 1 || AtFloor(bs, K)
  }

  /**
   * erase up to line 400 with the refill as meant. Where EraseUnsettled
   * empties, merges or finds the node at the floor, nothing changes. A node
   * below the floor that fits with neither neighbour takes elements from
   * the back of its previous node (FillRightToRequired; `ind` grows by
   * their number), else from the front of its next node
   * (FillLeftToRequired), until it holds RequiredNodeSize, provided the
   * two hold at least 2 * RequiredNodeSize: the negation of CanBeFilled.
   */
  function EraseUnsettledFilled<T>(bs: seq<seq<T>>, k: nat, ind: nat, K: nat): Unsettled<T>
    requires k < |bs| && ind < |bs[k]|
  {
    var b := Remove(bs[k], ind);
    var d := K - K / 2 - |b|;
    if b == [] || !NeedToFill(|b|, K) then EraseUnsettled(bs, k, ind, K)
    else if 0 < k && |bs[k - 1]| + |b| <= K then EraseUnsettled(bs, k, ind, K)
    else if k + 1 < |bs| && |b| + |bs[k + 1]| <= K then EraseUnsettled(bs, k, ind, K)
    else if 0 < k && !CanBeFilled(|bs[k - 1]|, |b|, K) then
      var p := bs[k - 1];
      Kept(bs[..k - 1] + [p[..|p| - d], p[|p| - d..] + b] + bs[k + 1..], k, ind + d)
    else if k + 1 < |bs| && !CanBeFilled(|b|, |bs[k + 1]|, K) then
      var n := bs[k + 1];
      Kept(bs[..k] + [b + n[..d], n[d..]] + bs[k + 2..], k, ind)
    else EraseUnsettled(bs, k, ind, K)
  }

  /** erase at (k, ind) with the refill as meant and end() where the source gives null. */
  function EraseBlocksFilled<T>(bs: seq<seq<T>>, k: nat, ind: nat, K: nat): Placed<T>
    requires k < |bs| && ind < |bs[k]|
  {
    match EraseUnsettledFilled(bs, k, ind, K)
    case Emptied(rest, c) => Placed(rest, c)
    case Kept(nb, k1, i1) => if k1 < |nb| then Placed(nb, Settle(nb, k1, i1)) else Placed(nb, Null)
  }

  /**
   * A list of nodes of 4, 2 and 4 elements with K = 4 is at the floor (2).
   * Erasing the first element of the middle node leaves it with 1: it fits
   * with neither neighbour, the refill never runs, and the list as written
   * is below the floor. With the refill as meant, the previous node gives
   * it one element and the erased position, 4, holds the element that
   * followed.
   */
  lemma {:induction false} FloorLostAsWritten()
    ensures Floored([[0, 1, 2, 3], [6, 7], [8, 9, 10, 11]], 4)
    ensures EraseBlocksAsWritten([[0, 1, 2, 3], [6, 7], [8, 9, 10, 11]], 1, 0, 4)
      == Placed([[0, 1, 2, 3], [7], [8, 9, 10, 11]], At(1, 0))
    ensures !Floored([[0, 1, 2, 3], [7], [8, 9, 10, 11]], 4)
    ensures EraseBlocksFilled([[0, 1, 2, 3], [6, 7], [8, 9, 10, 11]], 1, 0, 4)
      == Placed([[0, 1, 2], [3, 7], [8, 9, 10, 11]], At(1, 1))
  {
    var bs := [[0, 1, 2, 3], [6, 7], [8, 9, 10, 11]];
    assert Remove(bs[1], 0) == [7];
    assert !NeedToFill(|bs[0]|, 4) && !NeedToFill(|bs[1]|, 4) && !NeedToFill(|bs[2]|, 4);
    var p := bs[0];
    assert p[..3] == [0, 1, 2] && p[3..] + [7] == [3, 7];
    assert bs[..0] + [[0, 1, 2], [3, 7]] + bs[2..] == [[0, 1, 2], [3, 7], [8, 9, 10, 11]];
    assert NeedToFill(|[[0, 1, 2, 3], [7], [8, 9, 10, 11]][1]|, 4);
  }

  /** Replacing `n` blocks from `k` by blocks at the floor keeps every block at the floor. */
  lemma {:induction false} AtFloorSplice<T>(bs: seq<seq<T>>, k: nat, n: nat, m: seq<seq<T>>, K: nat)
    requires AtFloor(bs, K) && AtFloor(m, K) && k + n <= |bs|
    ensures AtFloor(bs[..k] + m + bs[k + n..], K)
  {
    var r := bs[..k] + m + bs[k + n..];
    forall j | 0 <= j < |r| ensures !NeedToFill(|r[j]|, K) {
      if j < k {
        assert r[j] == bs[j];
      } else if j < k + |m| {
        assert r[j] == m[j - k];
      } else {
        assert r[j] == bs[j - |m| + n];
      }
    }
  }

  /**
   * Filling the shrunk node `b` from the back of its previous node: both
   * end within 1..K and at the floor, the elements keep their order, and
   * the erased position is `ind + d` in node k.
   */
  lemma {:induction false} FillFromPrev<T>(bs: seq<seq<T>>, k: nat, ind: nat, K: nat, b: seq<T>, d: nat)
    requires Shaped(bs, K) && 0 < k < |bs| && ind <= |b| && b != []
    requires NeedToFill(|b|, K) && !CanBeFilled(|bs[k - 1]|, |b|, K) && d == K - K / 2 - |b|
    ensures var p := bs[k - 1];
      var nb := bs[..k - 1] + [p[..|p| - d], p[|p| - d..] + b] + bs[k + 1..];
      d <= |p| && Shaped(nb, K) && AtFloor([p[..|p| - d], p[|p| - d..] + b], K)
      && Offset(nb, k) + ind + d == Offset(bs, k) + ind
      && Flatten(nb) == Flatten(bs[..k]) + b + Flatten(bs[k + 1..])
  {
    var p := bs[k - 1];
    var m := [p[..|p| - d], p[|p| - d..] + b];
    var nb := bs[..k - 1] + m + bs[k + 1..];
    assert p[..|p| - d] + (p[|p| - d..] + b) == p + b;
    assert Shaped(m, K) by { assert m[0] == p[..|p| - d] && m[1] == p[|p| - d..] + b; }
    assert AtFloor(m, K) by { assert m[0] == p[..|p| - d] && m[1] == p[|p| - d..] + b; }
    assert bs[..k] == bs[..k - 1] + [p];
    FlattenConcat(bs[..k - 1], [p]);
    FlattenOne(p);
    FlattenConcat(bs[..k - 1] + m, bs[k + 1..]);
    FlattenConcat(bs[..k - 1], m);
    FlattenTwo(m[0], m[1]);
    assert nb[..k - 1] == bs[..k - 1];
    OffsetPrefix(nb, bs, k - 1);
    OffsetStep(bs, k - 1);
    OffsetStep(nb, k - 1);
    ShapedSplice(bs, k - 1, 2, m, K);
    assert nb == bs[..k - 1] + m + bs[k - 1 + 2..];
  }

  /**
   * Filling the shrunk node `b` from the front of its next node: both end
   * within 1..K and at the floor, the elements keep their order, and the
   * erased position stays `ind` in node k.
   */
  lemma {:induction false} FillFromNext<T>(bs: seq<seq<T>>, k: nat, ind: nat, K: nat, b: seq<T>, d: nat)
    requires Shaped(bs, K) && k + 1 < |bs| && ind <= |b| && b != []
    requires NeedToFill(|b|, K) && !CanBeFilled(|b|, |bs[k + 1]|, K) && d == K - K / 2 - |b|
    ensures var n := bs[k + 1];
      var nb := bs[..k] + [b + n[..d], n[d..]] + bs[k + 2..];
      d <= |n| && Shaped(nb, K) && AtFloor([b + n[..d], n[d..]], K)
      && Offset(nb, k) == Offset(bs, k)
      && Flatten(nb) == Flatten(bs[..k]) + b + Flatten(bs[k + 1..])
  {
    var n := bs[k + 1];
    var m := [b + n[..d], n[d..]];
    var nb := bs[..k] + m + bs[k + 2..];
    assert b + n[..d] + n[d..] == b + n;
    assert Shaped(m, K) by { assert m[0] == b + n[..d] && m[1] == n[d..]; }
    assert AtFloor(m, K) by { assert m[0] == b + n[..d] && m[1] == n[d..]; }
    assert bs[k + 1..] == [n] + bs[k + 2..];
    FlattenConcat([n], bs[k + 2..]);
    FlattenOne(n);
    FlattenConcat(bs[..k] + m, bs[k + 2..]);
    FlattenConcat(bs[..k], m);
    FlattenTwo(m[0], m[1]);
    assert nb[..k] == bs[..k];
    OffsetPrefix(nb, bs, k);
    ShapedSplice(bs, k, 2, m, K);
  }

  /**
   * `u` is what erase may leave before settling its iterator at (k, ind):
   * the node survived, every node is within 1..K, the designated element
   * is gone, and the erased position is `u.ind` in node `u.k`.
   */
  ghost predicate KeptAfterErase<T>(bs: seq<seq<T>>, k: nat, ind: nat, K: nat, u: Unsettled<T>)
  {
    k < |bs| && ind < |bs[k]| && u.Kept? && Shaped(u.blocks, K) && u.k < |u.blocks| && u.ind <= |u.blocks[u.k]|
    && Offset(bs, k) + ind < |Flatten(bs)|
    && Flatten(u.blocks) == Remove(Flatten(bs), Offset(bs, k) + ind)
    && Offset(u.blocks, u.k) + u.ind == Offset(bs, k) + ind
  }

  /** Where the refill does not apply, the surviving node is as EraseUnsettled leaves it. */
  lemma {:induction false} KeptWithoutFill<T>(bs: seq<seq<T>>, k: nat, ind: nat, K: nat)
    requires Shaped(bs, K) && k < |bs| && ind < |bs[k]| && |bs[k]| > 1
    requires EraseUnsettledFilled(bs, k, ind, K) == EraseUnsettled(bs, k, ind, K)
    ensures KeptAfterErase(bs, k, ind, K, EraseUnsettledFilled(bs, k, ind, K))
  {
    EraseKeptSpec(bs, k, ind, K);
  }

  /** The refill from the previous node leaves the node surviving, filled, at the same position. */
  lemma {:induction false} KeptByPrevFill<T>(bs: seq<seq<T>>, k: nat, ind: nat, K: nat, b: seq<T>)
    requires Shaped(bs, K) && 0 < k < |bs| && ind < |bs[k]| && b == Remove(bs[k], ind) && b != []
    requires NeedToFill(|b|, K) && |bs[k - 1]| + |b| > K && !CanBeFilled(|bs[k - 1]|, |b|, K)
    requires !(k + 1 < |bs| && |b| + |bs[k + 1]| <= K)
    ensures KeptAfterErase(bs, k, ind, K, EraseUnsettledFilled(bs, k, ind, K))
  {
    var d := K - K / 2 - |b|;
    FlattenAround(bs, k);
    RemoveInside(Flatten(bs[..k]), bs[k], Flatten(bs[k + 1..]), ind);
    FillFromPrev(bs, k, ind, K, b, d);
  }

  /** The refill from the next node leaves the node surviving, filled, at the same position. */
  lemma {:induction false} KeptByNextFill<T>(bs: seq<seq<T>>, k: nat, ind: nat, K: nat, b: seq<T>)
    requires Shaped(bs, K) && k + 1 < |bs| && ind < |bs[k]| && b == Remove(bs[k], ind) && b != []
    requires NeedToFill(|b|, K) && |b| + |bs[k + 1]| > K && !CanBeFilled(|b|, |bs[k + 1]|, K)
    requires !(0 < k && |bs[k - 1]| + |b| <= K) && !(0 < k && !CanBeFilled(|bs[k - 1]|, |b|, K))
    ensures KeptAfterErase(bs, k, ind, K, EraseUnsettledFilled(bs, k, ind, K))
  {
    var d := K - K / 2 - |b|;
    FlattenAround(bs, k);
    RemoveInside(Flatten(bs[..k]), bs[k], Flatten(bs[k + 1..]), ind);
    FillFromNext(bs, k, ind, K, b, d);
  }

  /** The surviving node after the element is removed and a merge or refill perhaps applied. */
  lemma {:induction false} EraseKeptFilledSpec<T>(bs: seq<seq<T>>, k: nat, ind: nat, K: nat)
    requires Shaped(bs, K) && k < |bs| && ind < |bs[k]| && |bs[k]| > 1
    ensures KeptAfterErase(bs, k, ind, K, EraseUnsettledFilled(bs, k, ind, K))
  {
    var b := Remove(bs[k], ind);
    if b == [] || !NeedToFill(|b|, K) || (0 < k && |bs[k - 1]| + |b| <= K)
      || (k + 1 < |bs| && |b| + |bs[k + 1]| <= K)
    {
      KeptWithoutFill(bs, k, ind, K);
    } else if 0 < k && !CanBeFilled(|bs[k - 1]|, |b|, K) {
      KeptByPrevFill(bs, k, ind, K, b);
    } else if k + 1 < |bs| && !CanBeFilled(|b|, |bs[k + 1]|, K) {
      KeptByNextFill(bs, k, ind, K, b);
    } else {
      KeptWithoutFill(bs, k, ind, K);
    }
  }

  /**
   * With the refill as meant, erasing still removes exactly the designated
   * element, keeps every node within 1..K elements and returns an iterator
   * to the erased position.
   */
  lemma {:induction false} EraseBlocksFilledSpec<T>(bs: seq<seq<T>>, k: nat, ind: nat, K: nat)
    requires Shaped(bs, K) && k < |bs| && ind < |bs[k]|
    ensures var r := EraseBlocksFilled(bs, k, ind, K);
      Offset(bs, k) + ind < |Flatten(bs)|
      && Shaped(r.blocks, K) && Flatten(r.blocks) == Remove(Flatten(bs), Offset(bs, k) + ind)
      && IsCursor(r.blocks, r.at) && Pos(r.blocks, r.at) == Offset(bs, k) + ind
  {
    if |bs[k]| == 1 {
      assert Remove(bs[k], ind) == [];
      assert EraseBlocksFilled(bs, k, ind, K) == EraseBlocks(bs, k, ind, K);
      EraseEmptiedSpec(bs, k, ind, K);
    } else {
      var u := EraseUnsettledFilled(bs, k, ind, K);
      EraseKeptFilledSpec(bs, k, ind, K);
      SettleSpec(u.blocks, u.k, u.ind, K);
    }
  }

  /** Two nodes that do not fit in one hold at least 2 * RequiredNodeSize elements. */
  lemma {:induction false} UnmergeableCanBeFilled(a: nat, b: nat, K: nat)
    requires K < a + b
    ensures !CanBeFilled(a, b, K)
  {
  }

  /**
   * With the refill as meant, erase keeps the floor: a list whose nodes
   * all hold at least RequiredNodeSize elements, or that has one node,
   * still does after the erase.
   */
  lemma {:induction false} EraseFilledKeepsFloor<T>(bs: seq<seq<T>>, k: nat, ind: nat, K: nat)
    requires Shaped(bs, K) && Floored(bs, K) && k < |bs| && ind < |bs[k]|
    ensures Floored(EraseBlocksFilled(bs, k, ind, K).blocks, K)
  {
    var b := Remove(bs[k], ind);
    var d := K - K / 2 - |b|;
    if |bs| <= 1 {
      return;
    }
    assert AtFloor(bs, K);
    if b == [] {
      AtFloorSplice(bs, k, 1, [], K);
      assert bs[..k] + [] + bs[k + 1..] == RemoveBlock(bs, k);
    } else if !NeedToFill(|b|, K) {
      AtFloorSplice(bs, k, 1, [b], K);
      assert bs[..k] + [b] + bs[k + 1..] == bs[k := b];
    } else if 0 < k && |bs[k - 1]| + |b| <= K {
      assert !NeedToFill(|bs[k - 1]|, K);
      AtFloorSplice(bs, k - 1, 2, [bs[k - 1] + b], K);
      assert bs[..k - 1] + [bs[k - 1] + b] + bs[k - 1 + 2..] == bs[..k - 1] + [bs[k - 1] + b] + bs[k + 1..];
    } else if k + 1 < |bs| && |b| + |bs[k + 1]| <= K {
      assert !NeedToFill(|bs[k + 1]|, K);
      AtFloorSplice(bs, k, 2, [b + bs[k + 1]], K);
    } else if 0 < k {
      UnmergeableCanBeFilled(|bs[k - 1]|, |b|, K);
      FillFromPrev(bs, k, ind, K, b, d);
      var p := bs[k - 1];
      AtFloorSplice(bs, k - 1, 2, [p[..|p| - d], p[|p| - d..] + b], K);
      assert bs[..k - 1] + [p[..|p| - d], p[|p| - d..] + b] + bs[k - 1 + 2..]
        == bs[..k - 1] + [p[..|p| - d], p[|p| - d..] + b] + bs[k + 1..];
    } else {
      UnmergeableCanBeFilled(|b|, |bs[k + 1]|, K);
      FillFromNext(bs, k, ind, K, b, d);
      var n := bs[k + 1];
      AtFloorSplice(bs, k, 2, [b + n[..d], n[d..]], K);
    }
  }
}
