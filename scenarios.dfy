/**
 * The allocator scenarios of tests/allocator_ut.cpp, on the block model.
 * Nodes are only allocated by push_back/push_front and only freed by
 * EraseNode, so the number of nodes allocated or freed by a run of one
 * kind of operation is the change in the number of blocks.
 */
module Scenarios {
  import opened SeqOps
  import opened Ring
  import opened ChainModel

  /** push_back never frees a node: the block count never drops. */
  lemma {:induction false} PushBackNeverFrees<T>(bs: seq<seq<T>>, v: T, K: nat)
    ensures |bs| <= |PushBackBlocks(bs, v, K)| <= |bs| + 1
  {
  }

  /** The quotient step when the last block is full: n - 1 == q * K + K - 1. */
  lemma {:induction false} CeilAtFull(n: nat, K: nat, q: nat)
    requires 0 < K && n == q * K + K
    ensures (n + K) / K == (n + K - 1) / K + 1 && n % K + 1 == 1
  {
    assert (q + 1) * K == q * K + K && (q + 2) * K == q * K + K + K;
    DivModUnique(n + K - 1, K, q + 1);
    DivModUnique(n + K, K, q + 2);
    DivModUnique(n, K, q + 1);
  }

  /** The quotient step when the last block has room: n - 1 == q * K + r with r < K - 1. */
  lemma {:induction false} CeilWithRoom(n: nat, K: nat, q: nat, r: nat)
    requires r + 1 < K && n == q * K + r + 1
    ensures (n + K) / K == (n + K - 1) / K && n % K == r + 1
  {
    assert (q + 1) * K == q * K + K;
    DivModUnique(n + K - 1, K, q + 1);
    DivModUnique(n + K, K, q + 1);
    DivModUnique(n, K, q);
  }

  /** How ceil(n / K) and the remainder (n - 1) mod K + 1 move when n grows by one. */
  lemma {:induction false} CeilNext(n: nat, K: nat)
    requires 0 < K && 0 < n
    ensures (n - 1) % K + 1 == K ==> (n + K) / K == (n + K - 1) / K + 1 && n % K + 1 == 1
    ensures (n - 1) % K + 1 < K ==> (n + K) / K == (n + K - 1) / K && n % K + 1 == (n - 1) % K + 2
  {
    var q, r := (n - 1) / K, (n - 1) % K;
    assert n - 1 == q * K + r;
    if r == K - 1 {
      CeilAtFull(n, K, q);
    } else {
      CeilWithRoom(n, K, q, r);
    }
  }

  /**
   * A list built by n push_backs has ceil(n / K) nodes, the last holding
   * what is left over after the full ones.
   */
  lemma {:induction false} BuildNodeCount<T>(s: seq<T>, K: nat)
    requires 0 < K
    ensures |Build(s, K)| == (|s| + K - 1) / K
    ensures s != [] ==> 0 < |Build(s, K)| && |Build(s, K)[|Build(s, K)| - 1]| == (|s| - 1) % K + 1
  {
    if s == [] {
      DivModUnique(K - 1, K, 0);
    } else {
      var init := s[..|s| - 1];
      BuildNodeCount(init, K);
      assert Build(s, K) == PushBackBlocks(Build(init, K), s[|s| - 1], K);
      if init == [] {
        DivModUnique(K, K, 1);
        DivModUnique(0, K, 0);
      } else {
        CeilNext(|init|, K);
      }
    }
  }

  /** allocator_ut.cpp:109-123: eleven push_backs with K = 5 make three nodes. */
  lemma {:induction false} ElevenPushBacksMakeThreeNodes<T>(s: seq<T>)
    requires |s| == 11
    ensures |Build(s, 5)| == 3
  {
    BuildNodeCount(s, 5);
  }

  /** pop_back and pop_front never allocate: each leaves at most the blocks it was given. */
  lemma {:induction false} PopsNeverAllocate<T>(bs: seq<seq<T>>)
    ensures |bs| - 1 <= |PopBackBlocks(bs)| <= |bs|
    ensures |bs| - 1 <= |PopFrontBlocks(bs)| <= |bs|
  {
  }

  /** `n` rounds of pop_back followed by pop_front (allocator_ut.cpp:130-133). */
  function PopBothEnds<T>(bs: seq<seq<T>>, n: nat): seq<seq<T>>
    decreases n
  {
    if n == 0 then bs else PopBothEnds(PopFrontBlocks(PopBackBlocks(bs)), n - 1)
  }

  /**
   * allocator_ut.cpp:125-137: eleven push_backs with K = 5 give nodes of
   * 5, 5 and 1 elements; five rounds of pop_back and pop_front leave one
   * node, so, pops never allocating, exactly two nodes are freed.
   */
  lemma {:induction false} PopBothEndsFreesTwoNodes<T>(s: seq<T>)
    requires |s| == 11
    ensures |Build(s, 5)| == 3 && |PopBothEnds(Build(s, 5), 5)| == 1
  {
    var b0 := Build(s, 5);
    BuildNodeCount(s, 5);
    BuildFull(s, 5);
    assert |b0| == 3 && |b0[0]| == 5 && |b0[1]| == 5 && |b0[2]| == 1;
    var b1 := PopFrontBlocks(PopBackBlocks(b0));
    assert |b1| == 2 && |b1[0]| == 4 && |b1[1]| == 5;
    var b2 := PopFrontBlocks(PopBackBlocks(b1));
    assert |b2| == 2 && |b2[0]| == 3 && |b2[1]| == 4;
    var b3 := PopFrontBlocks(PopBackBlocks(b2));
    assert |b3| == 2 && |b3[0]| == 2 && |b3[1]| == 3;
    var b4 := PopFrontBlocks(PopBackBlocks(b3));
    assert |b4| == 2 && |b4[0]| == 1 && |b4[1]| == 2;
    var b5 := PopFrontBlocks(PopBackBlocks(b4));
    assert |b5| == 1;
    assert PopBothEnds(b4, 1) == b5;
    assert PopBothEnds(b3, 2) == b5;
    assert PopBothEnds(b2, 3) == b5;
    assert PopBothEnds(b1, 4) == b5;
  }

  /** Twenty push_backs with K = 5 fill four nodes: positions 3 and 13 are (0, 3) and (2, 3). */
  lemma {:induction false} TwentyPushBacks<T>(s: seq<T>) returns (bs: seq<seq<T>>)
    requires |s| == 20
    ensures bs == Build(s, 5) && Shaped(bs, 5) && Flatten(bs) == s
    ensures |bs| == 4 && |bs[0]| == 5 && |bs[1]| == 5 && |bs[2]| == 5 && |bs[3]| == 5
    ensures IsCursor(bs, At(0, 3)) && IsCursor(bs, At(2, 3)) && Pos(bs, At(0, 3)) == 3 && Pos(bs, At(2, 3)) == 13
  {
    bs := Build(s, 5);
    BuildSpec(s, 5);
    BuildNodeCount(s, 5);
    BuildFull(s, 5);
    assert bs[..0] == [] && bs[..2] == [bs[0], bs[1]];
    FlattenTwo(bs[0], bs[1]);
  }

  /**
   * allocator_ut.cpp:139-157: twenty push_backs with K = 5 give four full
   * nodes; erasing from position 3 up to position 13 unlinks the wholly
   * covered second node, and the fifth single erase merges the two nodes
   * left below RequiredNodeSize, so two nodes remain: two were freed, and
   * the list holds the values outside [3, 13).
   */
  lemma {:induction false} EraseRangeFreesTwoNodes<T>(s: seq<T>)
    requires |s| == 20
    ensures var bs := Build(s, 5);
      |bs| == 4 && Shaped(bs, 5) && IsCursor(bs, At(0, 3)) && IsCursor(bs, At(2, 3))
      && Pos(bs, At(0, 3)) == 3 && Pos(bs, At(2, 3)) == 13
      && var r := EraseRangeBlocks(bs, At(0, 3), At(2, 3), 5);
      |r.blocks| == 2 && Flatten(r.blocks) == s[..3] + s[13..]
  {
    var bs := TwentyPushBacks(s);
    EraseRangeBlocksSpec(bs, At(0, 3), At(2, 3), 5);
    RangeOverFullNodes(bs);
  }

  /**
   * Over four full nodes of K = 5, erasing from (0, 3) up to (2, 3)
   * unlinks the second node and erases five elements one by one, which
   * leaves two nodes.
   */
  lemma {:induction false} RangeOverFullNodes<T>(bs: seq<seq<T>>)
    requires |bs| == 4 && |bs[0]| == 5 && |bs[1]| == 5 && |bs[2]| == 5 && |bs[3]| == 5
    requires Shaped(bs, 5) && IsCursor(bs, At(0, 3)) && IsCursor(bs, At(2, 3)) && Pos(bs, At(0, 3)) <= Pos(bs, At(2, 3))
    ensures |EraseRangeBlocks(bs, At(0, 3), At(2, 3), 5).blocks| == 2
  {
    var c := RemoveCovered(bs, At(0, 3), At(2, 3));
    assert c.blocks == [bs[0], bs[2], bs[3]] && c.at == At(0, 3);
    assert RangeCount(bs, At(0, 3), At(2, 3)) == 5;
    FiveErasuresMerge(c.blocks);
  }

  /**
   * Five erasures from (0, 3) in three full nodes of K = 5: the node of the
   * first two is left with 3 elements, the next one with 2, which merges
   * into the 3 before it -- two nodes remain.
   */
  lemma {:induction false} FiveErasuresMerge<T>(bs: seq<seq<T>>)
    requires |bs| == 3 && |bs[0]| == 5 && |bs[1]| == 5 && |bs[2]| == 5
    ensures |EraseRepeat(bs, At(0, 3), 5, 5, Corrected).blocks| == 2
  {
    var p1 := EraseAt(bs, At(0, 3), 5, Corrected);
    assert |p1.blocks| == 3 && |p1.blocks[0]| == 4 && |p1.blocks[1]| == 5 && |p1.blocks[2]| == 5 && p1.at == At(0, 3);
    var p2 := EraseAt(p1.blocks, p1.at, 5, Corrected);
    assert |p2.blocks| == 3 && |p2.blocks[0]| == 3 && |p2.blocks[1]| == 5 && |p2.blocks[2]| == 5 && p2.at == At(1, 0);
    var p3 := EraseAt(p2.blocks, p2.at, 5, Corrected);
    assert |p3.blocks| == 3 && |p3.blocks[0]| == 3 && |p3.blocks[1]| == 4 && |p3.blocks[2]| == 5 && p3.at == At(1, 0);
    var p4 := EraseAt(p3.blocks, p3.at, 5, Corrected);
    assert |p4.blocks| == 3 && |p4.blocks[0]| == 3 && |p4.blocks[1]| == 3 && |p4.blocks[2]| == 5 && p4.at == At(1, 0);
    var p5 := EraseAt(p4.blocks, p4.at, 5, Corrected);
    assert |p5.blocks| == 2;
    assert EraseRepeat(bs, At(0, 3), 1, 5, Corrected) == p1;
    assert EraseRepeat(bs, At(0, 3), 2, 5, Corrected) == p2;
    assert EraseRepeat(bs, At(0, 3), 3, 5, Corrected) == p3;
    assert EraseRepeat(bs, At(0, 3), 4, 5, Corrected) == p4;
    assert EraseRepeat(bs, At(0, 3), 5, 5, Corrected) == p5;
  }
}
