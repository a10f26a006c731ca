/**
 * The unrolled list (lib/unrolled_list.h) seen as its sequence of node
 * contents in chain order. Every list operation is specified here as a
 * function on these blocks; the heap model in module UnrolledList is proved
 * to transform its nodes exactly as these functions say.
 *
 * An iterator is a (node, ind) pair; here it is a `Cursor`: a block index
 * and an index inside that block, or `Null` for the null node pointer.
 */
module ChainModel {
  import opened SeqOps

  /** The list's elements: the node contents in chain order, one after the other. */
  function Flatten<T>(bs: seq<seq<T>>): seq<T>
  {
    if bs == [] then [] else bs[0] + Flatten(bs[1..])
  }

  /** No linked node is empty and none holds more than K elements. */
  ghost predicate Shaped<T>(bs: seq<seq<T>>, K: nat)
  {
    forall i :: 0 <= i < |bs| ==> 0 < |bs[i]| <= K
  }

  /** Number of elements before block `k`. */
  function Offset<T>(bs: seq<seq<T>>, k: nat): nat
    requires k <= |bs|
  {
    |Flatten(bs[..k])|
  }

  lemma {:induction false} FlattenConcat<T>(a: seq<seq<T>>, b: seq<seq<T>>)
    ensures Flatten(a + b) == Flatten(a) + Flatten(b)
  {
    if a == [] {
      assert a + b == b;
    } else {
      assert (a + b)[1..] == a[1..] + b;
      FlattenConcat(a[1..], b);
    }
  }

  lemma {:induction false} FlattenOne<T>(b: seq<T>)
    ensures Flatten([b]) == b
  {
    assert [b][1..] == [];
  }

  /** Block `k` sits between the blocks before it and the blocks after it. */
  lemma {:induction false} FlattenAround<T>(bs: seq<seq<T>>, k: nat)
    requires k < |bs|
    ensures Flatten(bs) == Flatten(bs[..k]) + bs[k] + Flatten(bs[k + 1..])
  {
    assert bs[..k] + bs[k..] == bs;
    FlattenConcat(bs[..k], bs[k..]);
    assert bs[k..][0] == bs[k] && bs[k..][1..] == bs[k + 1..];
    assert Flatten(bs[k..]) == bs[k] + Flatten(bs[k + 1..]);
  }

  /** Replacing block `k` by the blocks `m` replaces its elements by theirs. */
  lemma {:induction false} FlattenSplice<T>(bs: seq<seq<T>>, k: nat, m: seq<seq<T>>)
    requires k < |bs|
    ensures Flatten(bs[..k] + m + bs[k + 1..]) == Flatten(bs[..k]) + Flatten(m) + Flatten(bs[k + 1..])
  {
    FlattenConcat(bs[..k] + m, bs[k + 1..]);
    FlattenConcat(bs[..k], m);
  }

  lemma {:induction false} FlattenTwo<T>(a: seq<T>, b: seq<T>)
    ensures Flatten([a, b]) == a + b
  {
    assert [a, b] == [a] + [b];
    FlattenConcat([a], [b]);
    FlattenOne(a);
    FlattenOne(b);
  }

  lemma {:induction false} OffsetStep<T>(bs: seq<seq<T>>, k: nat)
    requires k < |bs|
    ensures Offset(bs, k + 1) == Offset(bs, k) + |bs[k]|
  {
    assert bs[..k + 1] == bs[..k] + [bs[k]];
    FlattenConcat(bs[..k], [bs[k]]);
    FlattenOne(bs[k]);
  }

  lemma {:induction false} OffsetAll<T>(bs: seq<seq<T>>)
    ensures Offset(bs, |bs|) == |Flatten(bs)|
  {
    assert bs[..|bs|] == bs;
  }

  /** The blocks before `j` and from `j` on hold the list's elements before and from Offset(j). */
  lemma {:induction false} FlattenSplit<T>(bs: seq<seq<T>>, j: nat)
    requires j <= |bs|
    ensures Offset(bs, j) <= |Flatten(bs)|
    ensures Flatten(bs[..j]) == Flatten(bs)[..Offset(bs, j)]
    ensures Flatten(bs[j..]) == Flatten(bs)[Offset(bs, j)..]
  {
    assert bs == bs[..j] + bs[j..];
    FlattenConcat(bs[..j], bs[j..]);
    SliceInSecond(Flatten(bs[..j]), Flatten(bs[j..]), Offset(bs, j));
  }

  lemma {:induction false} OffsetMono<T>(bs: seq<seq<T>>, j: nat, k: nat)
    requires j <= k <= |bs|
    ensures Offset(bs, j) <= Offset(bs, k)
  {
    assert bs[..k] == bs[..j] + bs[j..k];
    FlattenConcat(bs[..j], bs[j..k]);
  }

  /** Blocks before `k` are untouched by changes from `k` on. */
  lemma {:induction false} OffsetPrefix<T>(bs: seq<seq<T>>, cs: seq<seq<T>>, k: nat)
    requires k <= |bs| && k <= |cs| && bs[..k] == cs[..k]
    ensures Offset(bs, k) == Offset(cs, k)
  {
  }

  /** With no empty block, a later block starts after every element of an earlier one. */
  lemma {:induction false} OffsetGap<T>(bs: seq<seq<T>>, j: nat, k: nat, K: nat)
    requires Shaped(bs, K) && j < k <= |bs|
    ensures Offset(bs, j) + |bs[j]| <= Offset(bs, k)
  {
    OffsetStep(bs, k - 1);
    if j < k - 1 {
      OffsetGap(bs, j, k - 1, K);
    }
  }

  /** Element `i` of block `k` is element Offset(k) + i of the list. */
  lemma {:induction false} ElementAt<T>(bs: seq<seq<T>>, k: nat, i: nat)
    requires k < |bs| && i < |bs[k]|
    ensures Offset(bs, k) + i < |Flatten(bs)| && Flatten(bs)[Offset(bs, k) + i] == bs[k][i]
  {
    FlattenAround(bs, k);
  }

  // ---------------------------------------------------------------- cursors

  /** An iterator: the null node pointer, or block `block` and index `ind` inside it. */
  datatype Cursor = Null | At(block: nat, ind: nat)

  /**
   * The iterators the list hands out: one per element, plus end(), which
   * is one past the last element of the last node; the empty list has only
   * (null, 0).
   */
  ghost predicate IsCursor<T>(bs: seq<seq<T>>, c: Cursor)
  {
    match c
    case Null => bs == []
    case At(k, i) => k < |bs| && (i < |bs[k]| || (k == |bs| - 1 && i == |bs[k]|))
  }

  /** begin() (unrolled_list.h:221): the first node at index 0. */
  function Begin<T>(bs: seq<seq<T>>): Cursor
  {
    if bs == [] then Null else At(0, 0)
  }

  /** end() (unrolled_list.h:222): the last node at index size(last). */
  function End<T>(bs: seq<seq<T>>): Cursor
  {
    if bs == [] then Null else At(|bs| - 1, |bs[|bs| - 1]|)
  }

  /** The position in the list that a cursor designates. */
  function Pos<T>(bs: seq<seq<T>>, c: Cursor): nat
    requires IsCursor(bs, c)
  {
    match c
    case Null => 0
    case At(k, i) => Offset(bs, k) + i
  }

  /** begin() designates position 0 and end() the position after the last element. */
  lemma {:induction false} BeginEnd<T>(bs: seq<seq<T>>, K: nat)
    requires Shaped(bs, K)
    ensures IsCursor(bs, Begin(bs)) && Pos(bs, Begin(bs)) == 0
    ensures IsCursor(bs, End(bs)) && Pos(bs, End(bs)) == |Flatten(bs)|
  {
    if bs != [] {
      OffsetStep(bs, |bs| - 1);
      OffsetAll(bs);
    }
  }

  /** A cursor other than end() designates an element: the one it points at in its block. */
  lemma {:induction false} Designates<T>(bs: seq<seq<T>>, c: Cursor, K: nat)
    requires Shaped(bs, K) && IsCursor(bs, c) && c != End(bs)
    ensures c.At? && c.ind < |bs[c.block]|
    ensures Pos(bs, c) < |Flatten(bs)| && Flatten(bs)[Pos(bs, c)] == bs[c.block][c.ind]
  {
    ElementAt(bs, c.block, c.ind);
  }

  /** Positions order cursors as their blocks do. */
  lemma {:induction false} CursorOrder<T>(bs: seq<seq<T>>, c1: Cursor, c2: Cursor, K: nat)
    requires Shaped(bs, K) && IsCursor(bs, c1) && IsCursor(bs, c2) && c1.At? && c2.At?
    requires c1.block < c2.block
    ensures Pos(bs, c1) < Pos(bs, c2)
  {
    OffsetGap(bs, c1.block, c2.block, K);
  }

  /** Every cursor designates a position from 0 to size(). */
  lemma {:induction false} PosBound<T>(bs: seq<seq<T>>, c: Cursor)
    requires IsCursor(bs, c)
    ensures Pos(bs, c) <= |Flatten(bs)|
  {
    if c.At? {
      if c.ind < |bs[c.block]| {
        ElementAt(bs, c.block, c.ind);
      } else {
        OffsetStep(bs, c.block);
        OffsetAll(bs);
      }
    }
  }

  /** Distinct cursors designate distinct positions. */
  lemma {:induction false} PosInjective<T>(bs: seq<seq<T>>, c1: Cursor, c2: Cursor, K: nat)
    requires Shaped(bs, K) && IsCursor(bs, c1) && IsCursor(bs, c2)
    requires Pos(bs, c1) == Pos(bs, c2)
    ensures c1 == c2
  {
    if c1.At? && c2.At? {
      if c1.block < c2.block {
        CursorOrder(bs, c1, c2, K);
      } else if c2.block < c1.block {
        CursorOrder(bs, c2, c1, K);
      }
    }
  }

  /**
   * Iterator ++ (unrolled_list.h:46-54): at the last index of a node other
   * than the last one, move to index 0 of the next node; otherwise step
   * the index.
   */
  function Succ<T>(bs: seq<seq<T>>, c: Cursor): Cursor
    requires IsCursor(bs, c) && c != End(bs)
  {
    var k, i := c.block, c.ind;
    if k != |bs| - 1 && i == |bs[k]| - 1 then At(k + 1, 0) else At(k, i + 1)
  }

  /**
   * Iterator -- (unrolled_list.h:55-63): at index 0 of a node other than
   * the first one, move to the last index of the previous node; otherwise
   * step the index back.
   */
  function Pred<T>(bs: seq<seq<T>>, c: Cursor): Cursor
    requires IsCursor(bs, c) && c != Begin(bs) && (0 < c.block ==> bs[c.block - 1] != [])
  {
    var k, i := c.block, c.ind;
    if k != 0 && i == 0 then At(k - 1, |bs[k - 1]| - 1) else At(k, i - 1)
  }

  /** ++ moves a cursor to the next position. */
  lemma {:induction false} SuccStep<T>(bs: seq<seq<T>>, c: Cursor, K: nat)
    requires Shaped(bs, K) && IsCursor(bs, c) && c != End(bs)
    ensures IsCursor(bs, Succ(bs, c)) && Pos(bs, Succ(bs, c)) == Pos(bs, c) + 1
  {
    if c.block != |bs| - 1 && c.ind == |bs[c.block]| - 1 {
      OffsetStep(bs, c.block);
    }
  }

  /** -- moves a cursor to the previous position. */
  lemma {:induction false} PredStep<T>(bs: seq<seq<T>>, c: Cursor, K: nat)
    requires Shaped(bs, K) && IsCursor(bs, c) && c != Begin(bs)
    ensures IsCursor(bs, Pred(bs, c)) && Pos(bs, Pred(bs, c)) + 1 == Pos(bs, c)
  {
    if c.block != 0 && c.ind == 0 {
      OffsetStep(bs, c.block - 1);
    }
  }

  /** ++ and -- undo each other. */
  lemma {:induction false} SuccPred<T>(bs: seq<seq<T>>, c: Cursor, K: nat)
    requires Shaped(bs, K) && IsCursor(bs, c)
    ensures c != End(bs) ==>
      IsCursor(bs, Succ(bs, c)) && Succ(bs, c) != Begin(bs) && Pred(bs, Succ(bs, c)) == c
    ensures c != Begin(bs) ==>
      IsCursor(bs, Pred(bs, c)) && Pred(bs, c) != End(bs) && Succ(bs, Pred(bs, c)) == c
  {
    if c != End(bs) {
      SuccStep(bs, c, K);
      BeginEnd(bs, K);
      PredStep(bs, Succ(bs, c), K);
      PosInjective(bs, Pred(bs, Succ(bs, c)), c, K);
    }
    if c != Begin(bs) {
      PredStep(bs, c, K);
      BeginEnd(bs, K);
      SuccStep(bs, Pred(bs, c), K);
      PosInjective(bs, Succ(bs, Pred(bs, c)), c, K);
    }
  }

  /** `n` applications of ++ starting at `c`. */
  function Walk<T>(bs: seq<seq<T>>, c: Cursor, n: nat, K: nat): (r: Cursor)
    requires Shaped(bs, K) && IsCursor(bs, c) && Pos(bs, c) + n <= |Flatten(bs)|
    ensures IsCursor(bs, r) && Pos(bs, r) == Pos(bs, c) + n
    decreases n
  {
    if n == 0 then c
    else
      BeginEnd(bs, K);
      SuccStep(bs, c, K);
      Walk(bs, Succ(bs, c), n - 1, K)
  }

  /** From begin(), exactly size() applications of ++ reach end(). */
  lemma {:induction false} WalkBeginToEnd<T>(bs: seq<seq<T>>, K: nat)
    requires Shaped(bs, K)
    ensures BeginEndOk(bs, K) && Walk(bs, Begin(bs), |Flatten(bs)|, K) == End(bs)
  {
    BeginEnd(bs, K);
    PosInjective(bs, Walk(bs, Begin(bs), |Flatten(bs)|, K), End(bs), K);
  }

  ghost predicate BeginEndOk<T>(bs: seq<seq<T>>, K: nat)
  {
    Shaped(bs, K) && IsCursor(bs, Begin(bs)) && Pos(bs, Begin(bs)) == 0
  }

  // ------------------------------------------------------ push and pop

  /** push_back (unrolled_list.h:508-537): a new node only when there is no last node or it is full. */
  function PushBackBlocks<T>(bs: seq<seq<T>>, v: T, K: nat): seq<seq<T>>
  {
    if bs == [] || |bs[|bs| - 1]| == K then bs + [[v]]
    else bs[|bs| - 1 := bs[|bs| - 1] + [v]]
  }

  lemma {:induction false} PushBackBlocksSpec<T>(bs: seq<seq<T>>, v: T, K: nat)
    requires Shaped(bs, K) && 0 < K
    ensures Shaped(PushBackBlocks(bs, v, K), K)
    ensures Flatten(PushBackBlocks(bs, v, K)) == Flatten(bs) + [v]
    ensures |PushBackBlocks(bs, v, K)| == |bs| + 1 <==> bs == [] || |bs[|bs| - 1]| == K
    ensures |PushBackBlocks(bs, v, K)| <= |bs| + 1
  {
    if bs == [] || |bs[|bs| - 1]| == K {
      FlattenConcat(bs, [[v]]);
      FlattenOne([v]);
    } else {
      var n := |bs| - 1;
      assert PushBackBlocks(bs, v, K) == bs[..n] + [bs[n] + [v]];
      FlattenConcat(bs[..n], [bs[n] + [v]]);
      FlattenOne(bs[n] + [v]);
      FlattenConcat(bs[..n], [bs[n]]);
      FlattenOne(bs[n]);
      assert bs == bs[..n] + [bs[n]];
    }
  }

  /** push_front (unrolled_list.h:472-496): a new node only when there is no first node or it is full. */
  function PushFrontBlocks<T>(bs: seq<seq<T>>, v: T, K: nat): seq<seq<T>>
  {
    if bs == [] || |bs[0]| == K then [[v]] + bs
    else bs[0 := [v] + bs[0]]
  }

  lemma {:induction false} PushFrontBlocksSpec<T>(bs: seq<seq<T>>, v: T, K: nat)
    requires Shaped(bs, K) && 0 < K
    ensures Shaped(PushFrontBlocks(bs, v, K), K)
    ensures Flatten(PushFrontBlocks(bs, v, K)) == [v] + Flatten(bs)
    ensures |PushFrontBlocks(bs, v, K)| == |bs| + 1 <==> bs == [] || |bs[0]| == K
    ensures |PushFrontBlocks(bs, v, K)| <= |bs| + 1
  {
    if bs == [] || |bs[0]| == K {
      FlattenConcat([[v]], bs);
      FlattenOne([v]);
    } else {
      var m := [[v] + bs[0]];
      ShapedSplice(bs, 0, 1, m, K);
      assert bs[..0] + m + bs[1..] == PushFrontBlocks(bs, v, K);
      PushFrontFlatten(bs, v);
    }
  }

  lemma {:induction false} PushFrontFlatten<T>(bs: seq<seq<T>>, v: T)
    requires bs != []
    ensures Flatten([[v] + bs[0]] + bs[1..]) == [v] + Flatten(bs)
  {
    var c := [[v] + bs[0]] + bs[1..];
    assert c[0] == [v] + bs[0] && c[1..] == bs[1..];
    assert Flatten(c) == c[0] + Flatten(c[1..]);
    assert Flatten(bs) == bs[0] + Flatten(bs[1..]);
  }

  /** `bs` without its block `k`: the effect of EraseNode (unrolled_list.h:636-651). */
  function RemoveBlock<T>(bs: seq<seq<T>>, k: nat): seq<seq<T>>
    requires k < |bs|
  {
    bs[..k] + bs[k + 1..]
  }

  /** Two neighbouring blocks, one of them emptied, with the empty one removed: one block holding both. */
  lemma {:induction false} MergedPair<T>(bs: seq<seq<T>>, k: nat, a: seq<T>, b: seq<T>, j: nat)
    requires k + 1 < |bs| && ((j == k && a == []) || (j == k + 1 && b == []))
    ensures RemoveBlock(bs[k := a][k + 1 := b], j) == bs[..k] + [a + b] + bs[k + 2..]
  {
    var cs := bs[k := a][k + 1 := b];
    if j == k {
      assert a + b == b;
      assert RemoveBlock(cs, j) == bs[..k] + [b] + bs[k + 2..];
    } else {
      assert a + b == a;
      assert RemoveBlock(cs, j) == bs[..k] + [a] + bs[k + 2..];
    }
  }

  lemma {:induction false} RemoveBlockSpec<T>(bs: seq<seq<T>>, k: nat, K: nat)
    requires k < |bs| && Shaped(bs, K)
    ensures Shaped(RemoveBlock(bs, k), K) && |RemoveBlock(bs, k)| == |bs| - 1
    ensures Offset(bs, k) + |bs[k]| <= |Flatten(bs)|
      && Flatten(RemoveBlock(bs, k)) == Flatten(bs)[..Offset(bs, k)] + Flatten(bs)[Offset(bs, k) + |bs[k]|..]
  {
    FlattenAround(bs, k);
    FlattenConcat(bs[..k], bs[k + 1..]);
  }

  /**
   * pop_back (unrolled_list.h:539-548): drop the last element; the last
   * node is unlinked if that empties it. An empty list stays empty.
   */
  function PopBackBlocks<T>(bs: seq<seq<T>>): seq<seq<T>>
  {
    if bs == [] then []
    else
      var n := |bs| - 1;
      if |bs[n]| <= 1 then bs[..n] else bs[n := bs[n][..|bs[n]| - 1]]
  }

  lemma {:induction false} PopBackBlocksSpec<T>(bs: seq<seq<T>>, K: nat)
    requires Shaped(bs, K)
    ensures Shaped(PopBackBlocks(bs), K)
    ensures bs == [] ==> PopBackBlocks(bs) == []
    ensures bs != [] ==> |Flatten(bs)| > 0 && Flatten(PopBackBlocks(bs)) == Flatten(bs)[..|Flatten(bs)| - 1]
    ensures bs != [] ==> (|PopBackBlocks(bs)| == |bs| - 1 <==> |bs[|bs| - 1]| == 1)
    ensures |PopBackBlocks(bs)| >= |bs| - 1
  {
    if bs != [] {
      var n := |bs| - 1;
      if |bs[n]| > 1 {
        var m := [bs[n][..|bs[n]| - 1]];
        ShapedSplice(bs, n, 1, m, K);
        assert bs[..n] + m + bs[n + 1..] == PopBackBlocks(bs);
      }
      PopBackFlatten(bs, K);
    }
  }

  lemma {:induction false} PopBackFlatten<T>(bs: seq<seq<T>>, K: nat)
    requires Shaped(bs, K) && bs != []
    ensures |Flatten(bs)| > 0 && Flatten(PopBackBlocks(bs)) == Flatten(bs)[..|Flatten(bs)| - 1]
  {
    var n := |bs| - 1;
    assert bs == bs[..n] + [bs[n]];
    FlattenConcat(bs[..n], [bs[n]]);
    FlattenOne(bs[n]);
    DropLast(Flatten(bs[..n]), bs[n]);
    if |bs[n]| > 1 {
      var m := [bs[n][..|bs[n]| - 1]];
      assert bs[..n] + m == PopBackBlocks(bs);
      FlattenConcat(bs[..n], m);
      FlattenOne(m[0]);
    }
  }

  /**
   * pop_front (unrolled_list.h:498-507): drop the first element; the first
   * node is unlinked if that empties it. An empty list stays empty.
   */
  function PopFrontBlocks<T>(bs: seq<seq<T>>): seq<seq<T>>
  {
    if bs == [] then []
    else if |bs[0]| <= 1 then bs[1..]
    else bs[0 := bs[0][1..]]
  }

  lemma {:induction false} PopFrontBlocksSpec<T>(bs: seq<seq<T>>, K: nat)
    requires Shaped(bs, K)
    ensures Shaped(PopFrontBlocks(bs), K)
    ensures bs == [] ==> PopFrontBlocks(bs) == []
    ensures bs != [] ==> |Flatten(bs)| > 0 && Flatten(PopFrontBlocks(bs)) == Flatten(bs)[1..]
    ensures bs != [] ==> (|PopFrontBlocks(bs)| == |bs| - 1 <==> |bs[0]| == 1)
    ensures |PopFrontBlocks(bs)| >= |bs| - 1
  {
    if bs != [] && |bs[0]| > 1 {
      var m := [bs[0][1..]];
      ShapedSplice(bs, 0, 1, m, K);
      assert bs[..0] + m + bs[1..] == PopFrontBlocks(bs);
    }
    if bs != [] {
      PopFrontFlatten(bs, K);
    }
  }

  lemma {:induction false} PopFrontFlatten<T>(bs: seq<seq<T>>, K: nat)
    requires Shaped(bs, K) && bs != []
    ensures |Flatten(bs)| > 0 && Flatten(PopFrontBlocks(bs)) == Flatten(bs)[1..]
  {
    assert Flatten(bs) == bs[0] + Flatten(bs[1..]);
    DropFirst(bs[0], Flatten(bs[1..]));
    if |bs[0]| > 1 {
      FlattenConcat([bs[0][1..]], bs[1..]);
      FlattenOne(bs[0][1..]);
    }
  }

  // ------------------------------------------------------------ insert

  /**
   * AddToNode / AddToFullNode (unrolled_list.h:652-740): the blocks that
   * replace node `b` once `v` is inserted at `ind`. A full node is split:
   * K / 2 + 1 elements stay and K - K / 2 move to a new node after it,
   * `v` going to whichever half `ind` falls in.
   */
  function AddToBlock<T>(b: seq<T>, ind: nat, v: T, K: nat): seq<seq<T>>
    requires 0 < K && |b| <= K && ind <= |b|
  {
    if |b| < K then [Ins(b, ind, v)]
    else if ind <= K / 2 then [Ins(b[..K / 2], ind, v), b[K / 2..]]
    else [b[..K / 2 + 1], Ins(b[K / 2 + 1..], ind - (K / 2 + 1), v)]
  }

  lemma {:induction false} AddToBlockSpec<T>(b: seq<T>, ind: nat, v: T, K: nat)
    requires 0 < K && |b| <= K && ind <= |b|
    ensures var m := AddToBlock(b, ind, v, K);
      Flatten(m) == Ins(b, ind, v) && Shaped(m, K)
      && (|b| < K ==> |m| == 1)
      && (|b| == K ==> |m| == 2 && |m[0]| == K / 2 + 1 && |m[1]| == K - K / 2)
  {
    var m := AddToBlock(b, ind, v, K);
    if |b| < K {
      FlattenOne(Ins(b, ind, v));
    } else {
      FlattenTwo(m[0], m[1]);
      if ind <= K / 2 {
        assert b == b[..K / 2] + b[K / 2..];
        assert Ins(b[..K / 2], ind, v) + b[K / 2..] == Ins(b, ind, v);
      } else {
        assert b == b[..K / 2 + 1] + b[K / 2 + 1..];
        assert b[..K / 2 + 1] + Ins(b[K / 2 + 1..], ind - (K / 2 + 1), v) == Ins(b, ind, v);
      }
    }
  }

  /** Blocks and the cursor an operation returns. */
  datatype Placed<T> = Placed(blocks: seq<seq<T>>, at: Cursor)

  /**
   * insert at (k, ind) (unrolled_list.h:250-290): node k is replaced by the
   * blocks AddToBlock gives; the returned iterator starts at (k, ind) and
   * moves into the next node while ind is past the end of the current one
   * (unrolled_list.h:282-287).
   */
  function InsertBlocks<T>(bs: seq<seq<T>>, k: nat, ind: nat, v: T, K: nat): Placed<T>
    requires 0 < K && k < |bs| && |bs[k]| <= K && ind <= |bs[k]|
  {
    var m := AddToBlock(bs[k], ind, v, K);
    Placed(bs[..k] + m + bs[k + 1..], if ind < |m[0]| then At(k, ind) else At(k + 1, ind - |m[0]|))
  }

  /**
   * Insertion puts `v` at the position (k, ind) designated, keeps every
   * node within 1..K elements, and returns an iterator designating `v`.
   * Node k itself may be empty: that is the node insert creates in an
   * empty list.
   */
  lemma {:induction false} InsertBlocksSpec<T>(bs: seq<seq<T>>, k: nat, ind: nat, v: T, K: nat)
    requires 0 < K && k < |bs| && |bs[k]| <= K && ind <= |bs[k]|
    requires forall j :: 0 <= j < |bs| && j != k ==> 0 < |bs[j]| <= K
    ensures var r := InsertBlocks(bs, k, ind, v, K);
      Offset(bs, k) + ind <= |Flatten(bs)|
      && Shaped(r.blocks, K) && Flatten(r.blocks) == Ins(Flatten(bs), Offset(bs, k) + ind, v)
      && IsCursor(r.blocks, r.at) && Pos(r.blocks, r.at) == Offset(bs, k) + ind
      && Flatten(r.blocks)[Pos(r.blocks, r.at)] == v && Offset(r.blocks, k) == Offset(bs, k)
  {
    AddToBlockSpec(bs[k], ind, v, K);
    ShapedSplice(bs, k, 1, AddToBlock(bs[k], ind, v, K), K);
    InsertBlocksFlatten(bs, k, ind, v, K);
    InsertBlocksCursor(bs, k, ind, v, K);
  }

  lemma {:induction false} InsertBlocksFlatten<T>(bs: seq<seq<T>>, k: nat, ind: nat, v: T, K: nat)
    requires 0 < K && k < |bs| && |bs[k]| <= K && ind <= |bs[k]|
    ensures Offset(bs, k) + ind <= |Flatten(bs)|
      && Flatten(InsertBlocks(bs, k, ind, v, K).blocks) == Ins(Flatten(bs), Offset(bs, k) + ind, v)
  {
    var m := AddToBlock(bs[k], ind, v, K);
    AddToBlockSpec(bs[k], ind, v, K);
    FlattenSplice(bs, k, m);
    FlattenAround(bs, k);
    InsInside(Flatten(bs[..k]), bs[k], Flatten(bs[k + 1..]), ind, v);
  }

  lemma {:induction false} InsertBlocksCursor<T>(bs: seq<seq<T>>, k: nat, ind: nat, v: T, K: nat)
    requires 0 < K && k < |bs| && |bs[k]| <= K && ind <= |bs[k]|
    ensures var r := InsertBlocks(bs, k, ind, v, K);
      IsCursor(r.blocks, r.at) && r.at.At? && Offset(r.blocks, r.at.block) + r.at.ind == Offset(bs, k) + ind
      && Offset(r.blocks, k) == Offset(bs, k)
  {
    var m := AddToBlock(bs[k], ind, v, K);
    AddToBlockSpec(bs[k], ind, v, K);
    var nb := InsertBlocks(bs, k, ind, v, K).blocks;
    assert nb[..k] == bs[..k];
    OffsetPrefix(nb, bs, k);
    assert nb[k] == m[0];
    if ind >= |m[0]| {
      assert nb[k + 1] == m[1];
      OffsetStep(nb, k);
    }
  }

  // ------------------------------------------------------------- erase

  /**
   * NeedToFill (unrolled_list.h:570): a node below RequiredNodeSize,
   * K - K / 2 (unrolled_list.h:565).
   */
  predicate NeedToFill(size: nat, K: nat)
  {
    size < K - K / 2
  }

  /** CanBeFilled (unrolled_list.h:571-573): two nodes hold fewer than 2 * RequiredNodeSize. */
  predicate CanBeFilled(a: nat, b: nat, K: nat)
  {
    a + b < 2 * (K - K / 2)
  }

  /**
   * Whenever the refill of erase (unrolled_list.h:395-399) would apply, the
   * merge tried before it (384, 390) already applied: CanBeMerged
   * (Node.h:270-273) holds for the same two nodes. The refill never runs.
   */
  lemma {:induction false} CanBeFilledImpliesCanBeMerged(a: nat, b: nat, K: nat)
    requires CanBeFilled(a, b, K)
    ensures a + b <= K
  {
  }

  /**
   * The state erase reaches before it settles its iterator: either the
   * erased element's node emptied and was unlinked, and the returned
   * iterator is already chosen, or the node survived (perhaps merged with a
   * neighbour) and the erased position is `ind` in block `k`.
   */
  datatype Unsettled<T> = Emptied(blocks: seq<seq<T>>, at: Cursor) | Kept(blocks: seq<seq<T>>, k: nat, ind: nat)

  /**
   * erase up to line 400 (unrolled_list.h:361-400): remove the element; an
   * emptied node is unlinked and the iterator is begin() if it was the
   * first node, end() if it was the last, else the next node at 0. A node
   * below RequiredNodeSize merges with its previous node if the two fit in
   * one (`ind` then grows by the previous node's size), else with its next
   * node if those fit.
   */
  function EraseUnsettled<T>(bs: seq<seq<T>>, k: nat, ind: nat, K: nat): Unsettled<T>
    requires k < |bs| && ind < |bs[k]|
  {
    var b := Remove(bs[k], ind);
    if b == [] then
      var rest := RemoveBlock(bs, k);
      Emptied(rest, if k == 0 then Begin(rest) else if k == |bs| - 1 then End(rest) else At(k, 0))
    else if NeedToFill(|b|, K) && 0 < k && |bs[k - 1]| + |b| <= K then
      Kept(bs[..k - 1] + [bs[k - 1] + b] + bs[k + 1..], k - 1, ind + |bs[k - 1]|)
    else if NeedToFill(|b|, K) && k + 1 < |bs| && |b| + |bs[k + 1]| <= K then
      Kept(bs[..k] + [b + bs[k + 1]] + bs[k + 2..], k, ind)
    else
      Kept(bs[k := b], k, ind)
  }

  /**
   * unrolled_list.h:402-406 with end() where it is evidently meant: past the
   * end of its node the iterator moves to the next node's index 0, and
   * stays as end() when there is no next node.
   */
  function Settle<T>(bs: seq<seq<T>>, k: nat, ind: nat): Cursor
    requires k < |bs|
  {
    if ind == |bs[k]| && k + 1 < |bs| then At(k + 1, 0) else At(k, ind)
  }

  /**
   * unrolled_list.h:402-406 as written: past the end of the last node the
   * iterator becomes the next pointer, null, at index 0.
   */
  function SettleAsWritten<T>(bs: seq<seq<T>>, k: nat, ind: nat): Cursor
    requires k < |bs|
  {
    if ind == |bs[k]| then (if k + 1 < |bs| then At(k + 1, 0) else Null) else At(k, ind)
  }

  /** erase at (k, ind), with the returned iterator corrected to end() where the source gives null. */
  function EraseBlocks<T>(bs: seq<seq<T>>, k: nat, ind: nat, K: nat): Placed<T>
    requires k < |bs| && ind < |bs[k]|
  {
    match EraseUnsettled(bs, k, ind, K)
    case Emptied(rest, c) => Placed(rest, c)
    case Kept(nb, k1, i1) => if k1 < |nb| then Placed(nb, Settle(nb, k1, i1)) else Placed(nb, Null)
  }

  /** erase at (k, ind) as written (unrolled_list.h:361-407). */
  function EraseBlocksAsWritten<T>(bs: seq<seq<T>>, k: nat, ind: nat, K: nat): Placed<T>
    requires k < |bs| && ind < |bs[k]|
  {
    match EraseUnsettled(bs, k, ind, K)
    case Emptied(rest, c) => Placed(rest, c)
    case Kept(nb, k1, i1) => if k1 < |nb| then Placed(nb, SettleAsWritten(nb, k1, i1)) else Placed(nb, Null)
  }

  /**
   * Erasing removes exactly the designated element, keeps every node
   * within 1..K elements, and returns an iterator to the position the
   * erased element had: the element that followed it, or end().
   */
  lemma {:induction false} EraseBlocksSpec<T>(bs: seq<seq<T>>, k: nat, ind: nat, K: nat)
    requires Shaped(bs, K) && k < |bs| && ind < |bs[k]|
    ensures var r := EraseBlocks(bs, k, ind, K);
      Offset(bs, k) + ind < |Flatten(bs)|
      && Shaped(r.blocks, K) && Flatten(r.blocks) == Remove(Flatten(bs), Offset(bs, k) + ind)
      && IsCursor(r.blocks, r.at) && Pos(r.blocks, r.at) == Offset(bs, k) + ind
  {
    if |bs[k]| == 1 {
      EraseEmptiedSpec(bs, k, ind, K);
    } else {
      var u := EraseUnsettled(bs, k, ind, K);
      EraseKeptSpec(bs, k, ind, K);
      SettleSpec(u.blocks, u.k, u.ind, K);
    }
  }

  /** Erasing the only element of a node unlinks the node; the iterator goes to what followed. */
  lemma {:induction false} EraseEmptiedSpec<T>(bs: seq<seq<T>>, k: nat, ind: nat, K: nat)
    requires Shaped(bs, K) && k < |bs| && ind < |bs[k]| == 1
    ensures var r := EraseBlocks(bs, k, ind, K);
      Offset(bs, k) + ind < |Flatten(bs)|
      && Shaped(r.blocks, K) && Flatten(r.blocks) == Remove(Flatten(bs), Offset(bs, k) + ind)
      && IsCursor(r.blocks, r.at) && Pos(r.blocks, r.at) == Offset(bs, k) + ind
  {
    var rest := RemoveBlock(bs, k);
    var pre, post := Flatten(bs[..k]), Flatten(bs[k + 1..]);
    FlattenAround(bs, k);
    FlattenConcat(bs[..k], bs[k + 1..]);
    RemoveInside(pre, bs[k], post, ind);
    assert Remove(bs[k], ind) == [];
    RemoveBlockSpec(bs, k, K);
    BeginEnd(rest, K);
    if k == |bs| - 1 {
      assert rest == bs[..k];
    } else if k != 0 {
      assert rest[..k] == bs[..k];
      OffsetPrefix(rest, bs, k);
    }
  }

  /**
   * When the erased element was its node's only one, erase is the
   * unlinking of that node, with the iterator begin() if it was first,
   * end() if it was last, else the next node at index 0.
   */
  lemma {:induction false} EraseEmptiedIs<T>(bs: seq<seq<T>>, k: nat, ind: nat, K: nat)
    requires Shaped(bs, K) && k < |bs| && ind < |bs[k]| && Remove(bs[k], ind) == []
    ensures var rest := RemoveBlock(bs, k);
      Shaped(rest, K) && |Flatten(rest)| == |Flatten(bs)| - 1
      && EraseBlocks(bs, k, ind, K) == Placed(rest, if k == 0 then Begin(rest) else if k == |bs| - 1 then End(rest) else At(k, 0))
  {
    EraseEmptiedSpec(bs, k, ind, K);
  }

  /** The surviving node after the element is removed and a merge perhaps applied. */
  lemma {:induction false} EraseKeptSpec<T>(bs: seq<seq<T>>, k: nat, ind: nat, K: nat)
    requires Shaped(bs, K) && k < |bs| && ind < |bs[k]| && |bs[k]| > 1
    ensures EraseUnsettled(bs, k, ind, K).Kept?
    ensures var u := EraseUnsettled(bs, k, ind, K);
      Shaped(u.blocks, K) && u.k < |u.blocks| && u.ind <= |u.blocks[u.k]|
      && Offset(bs, k) + ind < |Flatten(bs)|
      && Flatten(u.blocks) == Remove(Flatten(bs), Offset(bs, k) + ind)
      && Offset(u.blocks, u.k) + u.ind == Offset(bs, k) + ind
  {
    var b := Remove(bs[k], ind);
    var pre, post := Flatten(bs[..k]), Flatten(bs[k + 1..]);
    FlattenAround(bs, k);
    RemoveInside(pre, bs[k], post, ind);
    if NeedToFill(|b|, K) && 0 < k && |bs[k - 1]| + |b| <= K {
      EraseMergePrev(bs, k, ind, K);
    } else if NeedToFill(|b|, K) && k + 1 < |bs| && |b| + |bs[k + 1]| <= K {
      EraseMergeNext(bs, k, ind, K);
    } else {
      EraseInPlace(bs, k, ind, K);
    }
  }

  /** Without a merge, the shrunk node stays where it was. */
  lemma {:induction false} EraseInPlace<T>(bs: seq<seq<T>>, k: nat, ind: nat, K: nat)
    requires Shaped(bs, K) && k < |bs| && ind < |bs[k]| && 1 < |bs[k]|
    ensures var b := Remove(bs[k], ind);
      Shaped(bs[k := b], K) && Offset(bs[k := b], k) == Offset(bs, k)
      && Flatten(bs[k := b]) == Flatten(bs[..k]) + b + Flatten(bs[k + 1..])
  {
    var b := Remove(bs[k], ind);
    var nb := bs[k := b];
    assert nb == bs[..k] + [b] + bs[k + 1..];
    FlattenSplice(bs, k, [b]);
    FlattenOne(b);
    assert nb[..k] == bs[..k];
    OffsetPrefix(nb, bs, k);
    ShapedSplice(bs, k, 1, [b], K);
  }

  /** Merging the shrunk node into its previous node: the erased position moves by the previous node's size. */
  lemma {:induction false} EraseMergePrev<T>(bs: seq<seq<T>>, k: nat, ind: nat, K: nat)
    requires Shaped(bs, K) && 0 < k < |bs| && ind < |bs[k]|
    requires |bs[k - 1]| + |bs[k]| - 1 <= K
    ensures var b := Remove(bs[k], ind);
      var nb := bs[..k - 1] + [bs[k - 1] + b] + bs[k + 1..];
      Shaped(nb, K) && Offset(nb, k - 1) + ind + |bs[k - 1]| == Offset(bs, k)+ ind
      && Flatten(nb) == Flatten(bs[..k]) + b + Flatten(bs[k + 1..])
  {
    var b := Remove(bs[k], ind);
    var m := bs[k - 1] + b;
    var nb := bs[..k - 1] + [m] + bs[k + 1..];
    assert bs[..k] == bs[..k - 1] + [bs[k - 1]];
    FlattenConcat(bs[..k - 1], [bs[k - 1]]);
    FlattenOne(bs[k - 1]);
    FlattenConcat(bs[..k - 1] + [m], bs[k + 1..]);
    FlattenConcat(bs[..k - 1], [m]);
    FlattenOne(m);
    assert nb[..k - 1] == bs[..k - 1];
    OffsetPrefix(nb, bs, k - 1);
    OffsetStep(bs, k - 1);
    ShapedSplice(bs, k - 1, 2, [m], K);
    assert nb == bs[..k - 1] + [m] + bs[k - 1 + 2..];
  }

  /** Merging the next node into the shrunk node: the erased position stays. */
  lemma {:induction false} EraseMergeNext<T>(bs: seq<seq<T>>, k: nat, ind: nat, K: nat)
    requires Shaped(bs, K) && k + 1 < |bs| && ind < |bs[k]|
    requires |bs[k]| - 1 + |bs[k + 1]| <= K && 1 < |bs[k]|
    ensures var b := Remove(bs[k], ind);
      var nb := bs[..k] + [b + bs[k + 1]] + bs[k + 2..];
      Shaped(nb, K) && Offset(nb, k) == Offset(bs, k)
      && Flatten(nb) == Flatten(bs[..k]) + b + Flatten(bs[k + 1..])
  {
    var b := Remove(bs[k], ind);
    var m := b + bs[k + 1];
    var nb := bs[..k] + [m] + bs[k + 2..];
    assert bs[k + 1..] == [bs[k + 1]] + bs[k + 2..];
    FlattenConcat([bs[k + 1]], bs[k + 2..]);
    FlattenOne(bs[k + 1]);
    FlattenConcat(bs[..k] + [m], bs[k + 2..]);
    FlattenConcat(bs[..k], [m]);
    FlattenOne(m);
    assert nb[..k] == bs[..k];
    OffsetPrefix(nb, bs, k);
    ShapedSplice(bs, k, 2, [m], K);
  }

  /** Settling gives a valid iterator at the same position: the next node's first element, or end(). */
  lemma {:induction false} SettleSpec<T>(bs: seq<seq<T>>, k: nat, ind: nat, K: nat)
    requires Shaped(bs, K) && k < |bs| && ind <= |bs[k]|
    ensures IsCursor(bs, Settle(bs, k, ind)) && Pos(bs, Settle(bs, k, ind)) == Offset(bs, k) + ind
  {
    if ind == |bs[k]| && k + 1 < |bs| {
      OffsetStep(bs, k);
    }
  }

  /** The settled iterators differ exactly where the corrected one is end(), and the one as written is then null. */
  lemma {:induction false} SettleAsWrittenDiffers<T>(bs: seq<seq<T>>, k: nat, ind: nat, K: nat)
    requires Shaped(bs, K) && k < |bs| && ind <= |bs[k]|
    ensures SettleAsWritten(bs, k, ind) != Settle(bs, k, ind) <==> Settle(bs, k, ind) == End(bs)
    ensures SettleAsWritten(bs, k, ind) != Settle(bs, k, ind) ==> SettleAsWritten(bs, k, ind) == Null
  {
  }

  /** Replacing `n` blocks from `k` by blocks of 1..K elements gives a chain of 1..K-element blocks. */
  lemma {:induction false} ShapedSplice<T>(bs: seq<seq<T>>, k: nat, n: nat, m: seq<seq<T>>, K: nat)
    requires Shaped(m, K) && k + n <= |bs|
    requires forall j :: 0 <= j < |bs| && (j < k || k + n <= j) ==> 0 < |bs[j]| <= K
    ensures Shaped(bs[..k] + m + bs[k + n..], K)
  {
    var r := bs[..k] + m + bs[k + n..];
    forall j | 0 <= j < |r| ensures 0 < |r[j]| <= K {
      if j < k {
        assert r[j] == bs[j];
      } else if j < k + |m| {
        assert r[j] == m[j - k];
      } else {
        assert r[j] == bs[j - |m| + n];
      }
    }
  }

  /**
   * As written, erase returns (null, 0) instead of end() exactly when the
   * erased element was the last one of the list and its node survived;
   * everything else agrees with the corrected erase.
   */
  lemma {:induction false} EraseAsWrittenDiffers<T>(bs: seq<seq<T>>, k: nat, ind: nat, K: nat)
    requires Shaped(bs, K) && k < |bs| && ind < |bs[k]|
    ensures EraseBlocksAsWritten(bs, k, ind, K).blocks == EraseBlocks(bs, k, ind, K).blocks
    ensures var r := EraseBlocks(bs, k, ind, K);
      (EraseBlocksAsWritten(bs, k, ind, K).at != r.at
       <==> |bs[k]| > 1 && r.at == End(r.blocks))
    ensures EraseBlocksAsWritten(bs, k, ind, K).at != EraseBlocks(bs, k, ind, K).at ==>
      EraseBlocksAsWritten(bs, k, ind, K).at == Null
  {
    if |bs[k]| > 1 {
      var u := EraseUnsettled(bs, k, ind, K);
      EraseKeptSpec(bs, k, ind, K);
      SettleAsWrittenDiffers(u.blocks, u.k, u.ind, K);
    }
  }

  /** Erasing the last element of the one-node list [x, y] returns (null, 0), not end(). */
  lemma {:induction false} EraseLastReturnsNull()
    ensures EraseBlocksAsWritten([[1, 2]], 0, 1, 4) == Placed([[1]], Null)
    ensures EraseBlocks([[1, 2]], 0, 1, 4) == Placed([[1]], At(0, 1))
    ensures End([[1]]) == At(0, 1)
  {
    assert Remove([1, 2], 1) == [1];
  }

  // ------------------------------------------------------- range erase

  /** Which erase a repeated erasure applies. */
  datatype Variant = AsWritten | Corrected

  /**
   * One call of erase on an iterator, as range erase makes it
   * (unrolled_list.h:429): an iterator that is null or past its node's end
   * is returned unchanged (ValidateIteratorInErase, unrolled_list.h:436-443).
   */
  function EraseAt<T>(bs: seq<seq<T>>, c: Cursor, K: nat, variant: Variant): Placed<T>
  {
    if c.Null? || c.block >= |bs| || c.ind >= |bs[c.block]| then Placed(bs, c)
    else if variant == Corrected then EraseBlocks(bs, c.block, c.ind, K)
    else EraseBlocksAsWritten(bs, c.block, c.ind, K)
  }

  /** `n` erasures, each at the iterator the previous one returned (unrolled_list.h:428-432). */
  function EraseRepeat<T>(bs: seq<seq<T>>, c: Cursor, n: nat, K: nat, variant: Variant): Placed<T>
    decreases n
  {
    if n == 0 then Placed(bs, c)
    else
      var q := EraseRepeat(bs, c, n - 1, K, variant);
      EraseAt(q.blocks, q.at, K, variant)
  }

  /** One corrected erasure at a cursor on an element removes that element and keeps the position. */
  lemma {:induction false} EraseAtSpec<T>(bs: seq<seq<T>>, c: Cursor, K: nat)
    requires Shaped(bs, K) && IsCursor(bs, c) && Pos(bs, c) < |Flatten(bs)|
    ensures var r := EraseAt(bs, c, K, Corrected);
      Shaped(r.blocks, K) && IsCursor(r.blocks, r.at) && Pos(r.blocks, r.at) == Pos(bs, c)
      && Flatten(r.blocks) == Remove(Flatten(bs), Pos(bs, c))
  {
    BeginEnd(bs, K);
    Designates(bs, c, K);
    EraseBlocksSpec(bs, c.block, c.ind, K);
  }

  /**
   * `r` is what erasing the n elements from position `p` of `f` must
   * leave: nodes within 1..K, an iterator still at position p, and the
   * elements of `f` less those n.
   */
  ghost predicate ErasedRange<T>(f: seq<T>, p: nat, n: nat, r: Placed<T>, K: nat)
  {
    p + n <= |f| && Shaped(r.blocks, K) && IsCursor(r.blocks, r.at) && Pos(r.blocks, r.at) == p
    && Flatten(r.blocks) == f[..p] + f[p + n..]
  }

  /** One more corrected erasure at what n - 1 erasures left removes one more element. */
  lemma {:induction false} EraseOneMore<T>(bs: seq<seq<T>>, c: Cursor, n: nat, K: nat, f: seq<T>, p: nat, q: Placed<T>) returns (r: Placed<T>)
    requires 0 < n && p + n <= |f| && q == EraseRepeat(bs, c, n - 1, K, Corrected) && ErasedRange(f, p, n - 1, q, K)
    ensures r == EraseRepeat(bs, c, n, K, Corrected) && ErasedRange(f, p, n, r, K)
  {
    r := EraseAt(q.blocks, q.at, K, Corrected);
    CutThenRemove(f, p, n);
    EraseAtSpec(q.blocks, q.at, K);
  }

  /** `n` corrected erasures from position p remove the elements at p .. p + n. */
  lemma {:induction false} EraseRepeatSpec<T>(bs: seq<seq<T>>, c: Cursor, n: nat, K: nat) returns (r: Placed<T>)
    requires Shaped(bs, K) && IsCursor(bs, c) && Pos(bs, c) + n <= |Flatten(bs)|
    ensures r == EraseRepeat(bs, c, n, K, Corrected) && ErasedRange(Flatten(bs), Pos(bs, c), n, r, K)
    decreases n
  {
    if n == 0 {
      r := Placed(bs, c);
      CutNothing(Flatten(bs), Pos(bs, c));
    } else {
      var q := EraseRepeatSpec(bs, c, n - 1, K);
      r := EraseOneMore(bs, c, n, K, Flatten(bs), Pos(bs, c), q);
    }
  }

  /**
   * The first step of range erase (unrolled_list.h:412-428): unlink the
   * wholly covered nodes (GetDeleteNodeRange and EraseCompletlyCoveredNodes,
   * unrolled_list.h:607-635) -- when first and last are in different
   * nodes, every node from first's (included iff first.ind == 0) up to
   * last's (excluded) -- and pick the iterator element-wise erasure starts
   * from: index 0 of last's node when first.ind == 0, else first.
   */
  function RemoveCovered<T>(bs: seq<seq<T>>, first: Cursor, last: Cursor): Placed<T>
    requires first.At? && last.At? && first.block <= last.block <= |bs|
  {
    var kf, kl := first.block, last.block;
    if kf == kl then Placed(bs, if first.ind == 0 then At(kl, 0) else first)
    else
      var start := if first.ind == 0 then kf else kf + 1;
      Placed(bs[..start] + bs[kl..], if first.ind == 0 then At(start, 0) else first)
  }

  /** The number of elements to erase one by one, as evidently meant: those between first and last. */
  function RangeCount<T>(bs: seq<seq<T>>, first: Cursor, last: Cursor): int
    requires first.At? && last.At? && first.block < |bs|
  {
    if first.block == last.block then last.ind - first.ind else RangeCountAsWritten(bs, first, last)
  }

  /**
   * The number of elements to erase one by one as written
   * (unrolled_list.h:418-421): last.ind when first.ind == 0, else the rest
   * of first's node plus last.ind -- also when both are in the same node.
   */
  function RangeCountAsWritten<T>(bs: seq<seq<T>>, first: Cursor, last: Cursor): int
    requires first.At? && last.At? && first.block < |bs|
  {
    if first.ind == 0 then last.ind else |bs[first.block]| - first.ind + last.ind
  }

  /**
   * Range erase as evidently meant (unrolled_list.h:408-435 with the
   * count corrected): unlink the covered nodes, then erase element by
   * element as many elements as lie between first and last.
   */
  function EraseRangeBlocks<T>(bs: seq<seq<T>>, first: Cursor, last: Cursor, K: nat): Placed<T>
    requires Shaped(bs, K) && IsCursor(bs, first) && IsCursor(bs, last) && Pos(bs, first) <= Pos(bs, last)
  {
    if first == last then Placed(bs, last)
    else
      RangeOrder(bs, first, last, K);
      var c := RemoveCovered(bs, first, last);
      var n := RangeCount(bs, first, last);
      EraseRepeat(c.blocks, c.at, if n < 0 then 0 else n, K, Corrected)
  }

  /** Range erase as written (unrolled_list.h:408-435): the count as written, and each step the erase as written. */
  function EraseRangeBlocksAsWritten<T>(bs: seq<seq<T>>, first: Cursor, last: Cursor, K: nat): Placed<T>
    requires Shaped(bs, K) && IsCursor(bs, first) && IsCursor(bs, last) && Pos(bs, first) <= Pos(bs, last)
  {
    if first == last then Placed(bs, last)
    else
      RangeOrder(bs, first, last, K);
      var c := RemoveCovered(bs, first, last);
      var n := RangeCountAsWritten(bs, first, last);
      EraseRepeat(c.blocks, c.at, if n < 0 then 0 else n, K, AsWritten)
  }

  /** Two distinct cursors in order are two At cursors, block by block in order. */
  lemma {:induction false} RangeOrder<T>(bs: seq<seq<T>>, first: Cursor, last: Cursor, K: nat)
    requires Shaped(bs, K) && IsCursor(bs, first) && IsCursor(bs, last) && Pos(bs, first) <= Pos(bs, last)
    requires first != last
    ensures first.At? && last.At? && first.block <= last.block < |bs|
    ensures first.block == last.block ==> first.ind < last.ind
  {
    if first.At? && last.At? && last.block < first.block {
      CursorOrder(bs, last, first, K);
    }
  }

  /**
   * Range erase removes exactly the elements from first up to, not
   * including, last, keeps every node within 1..K elements, and returns
   * an iterator to first's position, where last's element now is.
   */
  lemma {:induction false} EraseRangeBlocksSpec<T>(bs: seq<seq<T>>, first: Cursor, last: Cursor, K: nat)
    requires Shaped(bs, K) && IsCursor(bs, first) && IsCursor(bs, last) && Pos(bs, first) <= Pos(bs, last)
    ensures ErasedRange(Flatten(bs), Pos(bs, first), Pos(bs, last) - Pos(bs, first), EraseRangeBlocks(bs, first, last, K), K)
  {
    PosBound(bs, last);
    if first == last {
      var f, p := Flatten(bs), Pos(bs, first);
      assert f == f[..p] + f[p..];
    } else {
      RangeOrder(bs, first, last, K);
      if first.block == last.block {
        EraseRangeSameNode(bs, first, last, K);
      } else {
        EraseRangeAcross(bs, first, last, K);
      }
    }
  }

  lemma {:induction false} EraseRangeSameNode<T>(bs: seq<seq<T>>, first: Cursor, last: Cursor, K: nat)
    requires Shaped(bs, K) && IsCursor(bs, first) && IsCursor(bs, last)
    requires Pos(bs, first) <= Pos(bs, last)
    requires first.At? && last.At? && first.block == last.block && first.ind < last.ind
    ensures ErasedRange(Flatten(bs), Pos(bs, first), Pos(bs, last) - Pos(bs, first), EraseRangeBlocks(bs, first, last, K), K)
  {
    PosBound(bs, last);
    var n := last.ind - first.ind;
    assert Pos(bs, first) + n == Pos(bs, last);
    var r := EraseRepeatSpec(bs, first, n, K);
    assert EraseRangeBlocks(bs, first, last, K) == r;
  }

  lemma {:induction false} EraseRangeAcross<T>(bs: seq<seq<T>>, first: Cursor, last: Cursor, K: nat)
    requires Shaped(bs, K) && IsCursor(bs, first) && IsCursor(bs, last)
    requires Pos(bs, first) <= Pos(bs, last)
    requires first.At? && last.At? && first.block < last.block
    ensures ErasedRange(Flatten(bs), Pos(bs, first), Pos(bs, last) - Pos(bs, first), EraseRangeBlocks(bs, first, last, K), K)
  {
    var r := AcrossThenRepeat(bs, first, last, K);
    CoveredThenErased(bs, first, last, K, r);
    assert EraseRangeBlocks(bs, first, last, K) == r;
  }

  /**
   * With first and last in different nodes, range erase unlinks the
   * covered nodes and then makes RangeCount single erasures from first's
   * position.
   */
  lemma {:induction false} AcrossThenRepeat<T>(bs: seq<seq<T>>, first: Cursor, last: Cursor, K: nat) returns (r: Placed<T>)
    requires Shaped(bs, K) && IsCursor(bs, first) && IsCursor(bs, last)
    requires first.At? && last.At? && first.block < last.block
    ensures 0 <= RangeCount(bs, first, last) == RangeCountAsWritten(bs, first, last)
    ensures r == EraseRepeat(RemoveCovered(bs, first, last).blocks, RemoveCovered(bs, first, last).at, RangeCount(bs, first, last), K, Corrected)
    ensures ErasedRange(Flatten(RemoveCovered(bs, first, last).blocks), Pos(bs, first), RangeCount(bs, first, last), r, K)
  {
    RangeCoveredCursor(bs, first, last, K);
    RangeCoveredContents(bs, first, last, K);
    var c := RemoveCovered(bs, first, last);
    var n: nat := RangeCountAsWritten(bs, first, last);
    r := EraseRepeatSpec(c.blocks, c.at, n, K);
  }

  /**
   * Erasing RangeCount elements from first's position once the covered
   * nodes are unlinked leaves what erasing first up to last must leave.
   */
  lemma {:induction false} CoveredThenErased<T>(bs: seq<seq<T>>, first: Cursor, last: Cursor, K: nat, r: Placed<T>)
    requires Shaped(bs, K) && IsCursor(bs, first) && IsCursor(bs, last)
    requires first.At? && last.At? && first.block < last.block && 0 <= RangeCount(bs, first, last)
    requires ErasedRange(Flatten(RemoveCovered(bs, first, last).blocks), Pos(bs, first), RangeCount(bs, first, last), r, K)
    ensures Pos(bs, first) <= Pos(bs, last) && ErasedRange(Flatten(bs), Pos(bs, first), Pos(bs, last) - Pos(bs, first), r, K)
  {
    RangeCoveredContents(bs, first, last, K);
    var c := RemoveCovered(bs, first, last);
    ErasedElsewhere(Flatten(c.blocks), Flatten(bs), Pos(bs, first), RangeCount(bs, first, last), Pos(bs, last) - Pos(bs, first), r, K);
  }

  /** What erasing n from p of `g` leaves is what erasing m from p of `f` must leave, when both cuts agree. */
  lemma {:induction false} ErasedElsewhere<T>(g: seq<T>, f: seq<T>, p: nat, n: nat, m: nat, r: Placed<T>, K: nat)
    requires ErasedRange(g, p, n, r, K) && p + m <= |f| && g[..p] + g[p + n..] == f[..p] + f[p + m..]
    ensures ErasedRange(f, p, m, r, K)
  {
  }

  /** Unlinking blocks start .. kl cuts their elements out of the list. */
  lemma {:induction false} CutBlocks<T>(bs: seq<seq<T>>, start: nat, kl: nat)
    requires start <= kl <= |bs|
    ensures Offset(bs, start) <= Offset(bs, kl) <= |Flatten(bs)|
    ensures Flatten(bs[..start] + bs[kl..]) == Flatten(bs)[..Offset(bs, start)] + Flatten(bs)[Offset(bs, kl)..]
  {
    FlattenConcat(bs[..start], bs[kl..]);
    FlattenSplit(bs, start);
    FlattenSplit(bs, kl);
    OffsetMono(bs, start, kl);
  }

  /** After the covered nodes go, element-wise erasure starts at first's position. */
  lemma {:induction false} RangeCoveredCursor<T>(bs: seq<seq<T>>, first: Cursor, last: Cursor, K: nat)
    requires Shaped(bs, K) && IsCursor(bs, first) && IsCursor(bs, last)
    requires first.At? && last.At? && first.block < last.block
    ensures var c := RemoveCovered(bs, first, last);
      Shaped(c.blocks, K) && IsCursor(c.blocks, c.at) && Pos(c.blocks, c.at) == Pos(bs, first)
  {
    var kf, kl := first.block, last.block;
    var start := if first.ind == 0 then kf else kf + 1;
    var rest := bs[..start] + bs[kl..];
    ShapedSplice(bs, start, kl - start, [], K);
    assert bs[..start] + [] + bs[start + (kl - start)..] == rest;
    if first.ind == 0 {
      assert rest[..kf] == bs[..kf] && rest[kf] == bs[kl];
    } else {
      assert rest[..kf] == bs[..kf] && rest[kf] == bs[kf];
    }
    OffsetPrefix(rest, bs, kf);
  }

  /**
   * After the covered nodes go, the elements from first's position on
   * that element-wise erasure must remove are exactly RangeCountAsWritten
   * many, when first and last are in different nodes.
   */
  lemma {:induction false} RangeCoveredContents<T>(bs: seq<seq<T>>, first: Cursor, last: Cursor, K: nat)
    requires Shaped(bs, K) && IsCursor(bs, first) && IsCursor(bs, last)
    requires first.At? && last.At? && first.block < last.block
    ensures var c := RemoveCovered(bs, first, last);
      var n := RangeCountAsWritten(bs, first, last);
      Pos(bs, first) < Pos(bs, last) <= |Flatten(bs)| && 0 <= n && Pos(bs, first) + n <= |Flatten(c.blocks)|
      && Flatten(c.blocks)[..Pos(bs, first)] + Flatten(c.blocks)[Pos(bs, first) + n..]
         == Flatten(bs)[..Pos(bs, first)] + Flatten(bs)[Pos(bs, last)..]
  {
    var kf, kl := first.block, last.block;
    var start := if first.ind == 0 then kf else kf + 1;
    var os, ol := Offset(bs, start), Offset(bs, kl);
    CutBlocks(bs, start, kl);
    PosBound(bs, last);
    CursorOrder(bs, first, last, K);
    if first.ind > 0 {
      OffsetStep(bs, kf);
    }
    CutThenSlice(Flatten(bs), os, ol, Pos(bs, first), last.ind);
    assert Pos(bs, first) + RangeCountAsWritten(bs, first, last) == os + last.ind;
  }

  /**
   * As written, range erase within one node from an index other than 0
   * erases size(node) elements too many: in the list [0, 1, 2, 3] of
   * nodes of 4, erasing [1, 2) leaves [0] instead of [0, 2, 3].
   */
  lemma {:induction false} RangeEraseOvercounts()
    ensures EraseRangeBlocks([[0, 1, 2, 3]], At(0, 1), At(0, 2), 4).blocks == [[0, 2, 3]]
    ensures EraseRangeBlocksAsWritten([[0, 1, 2, 3]], At(0, 1), At(0, 2), 4).blocks == [[0]]
  {
    var bs := [[0, 1, 2, 3]];
    assert Offset(bs, 0) == 0;
    assert Remove([0, 1, 2, 3], 1) == [0, 2, 3];
    assert EraseRangeBlocks(bs, At(0, 1), At(0, 2), 4) == EraseRepeat(bs, At(0, 1), 1, 4, Corrected);
    assert EraseRepeat(bs, At(0, 1), 1, 4, Corrected) == Placed([[0, 2, 3]], At(0, 1));
    assert Remove([0, 2, 3], 1) == [0, 3];
    assert Remove([0, 3], 1) == [0];
    assert EraseRangeBlocksAsWritten(bs, At(0, 1), At(0, 2), 4) == EraseRepeat(bs, At(0, 1), 5, 4, AsWritten);
    assert EraseRepeat(bs, At(0, 1), 1, 4, AsWritten) == Placed([[0, 2, 3]], At(0, 1));
    assert EraseRepeat(bs, At(0, 1), 2, 4, AsWritten) == Placed([[0, 3]], At(0, 1));
    assert EraseRepeat(bs, At(0, 1), 3, 4, AsWritten) == Placed([[0]], Null);
    assert EraseRepeat(bs, At(0, 1), 4, 4, AsWritten) == Placed([[0]], Null);
  }

  // ------------------------------------------------- building a list

  /** The list a constructor from a sequence of values builds: one push_back per value (unrolled_list.h:198-210). */
  function Build<T>(s: seq<T>, K: nat): seq<seq<T>>
  {
    if s == [] then [] else PushBackBlocks(Build(s[..|s| - 1], K), s[|s| - 1], K)
  }

  /** A list built by push_back holds the values in order, every node but the last full. */
  lemma {:induction false} BuildSpec<T>(s: seq<T>, K: nat)
    requires 0 < K
    ensures Shaped(Build(s, K), K) && Flatten(Build(s, K)) == s
  {
    if s != [] {
      var init := s[..|s| - 1];
      BuildSpec(init, K);
      PushBackBlocksSpec(Build(init, K), s[|s| - 1], K);
      assert init + [s[|s| - 1]] == s;
    }
  }

  /** Every node of a list built by push_back but the last is full. */
  lemma {:induction false} BuildFull<T>(s: seq<T>, K: nat)
    ensures forall i :: 0 <= i < |Build(s, K)| - 1 ==> |Build(s, K)[i]| == K
  {
    if s != [] {
      var init := s[..|s| - 1];
      BuildFull(init, K);
      var bs, r := Build(init, K), Build(s, K);
      forall i | 0 <= i < |r| - 1 ensures |r[i]| == K {
        assert r[i] == bs[i];
      }
    }
  }
}
