/**
 * The unrolled list (lib/unrolled_list.h): a doubly linked chain of
 * nodes, each a circular buffer of at most K elements (module NodeBuffer).
 *
 * The ghost field `Chain` lists the linked nodes in order; `Blocks()` is
 * their contents, the value module ChainModel specifies every operation
 * on. Each method here is proved to change `Blocks()` exactly as the
 * matching ChainModel function says, and to keep the list's invariant.
 */
module UnrolledList {
  import opened SeqOps
  import opened Ring
  import opened NodeBuffer
  import opened ChainModel
  import opened ChainHeap

  /** An iterator (BaseIterator, unrolled_list.h:37-77): a node pointer and an index into that node. */
  datatype Iter<T> = Iter(node: Node?<T>, ind: int)

  /** Result of insert: the iterator, or the runtime_error of a null position in a non-empty list. */
  datatype Inserted<T> = Inserted(it: Iter<T>) | BadIterator

  /** The fields of a list, as values. */
  datatype Fields<T> = Fields(first: Node?<T>, last: Node?<T>, size: int, chain: seq<Node<T>>, repr: set<object>)

  /** The chain's nodes [a, b) to be replaced by `mid` (one value: the argument of lemma Rechain). */
  datatype Cut<T> = Cut(a: nat, b: nat, mid: seq<Node<T>>)

  class UnrolledList<T> {
    /** The node capacity: NodeMaxSize of the source's template. */
    const K: nat
    var first: Node?<T>
    var last: Node?<T>
    var size: int
    ghost var Chain: seq<Node<T>>
    ghost var Repr: set<object>

    /** The contents of the linked nodes, in chain order. */
    ghost function Blocks(): seq<seq<T>>
      reads this, Chain
    {
      BlocksOf(Chain)
    }

    /** The nodes are valid and linked in the order of the chain. */
    ghost predicate Linked()
      reads this, Repr
    {
      this !in Repr && ChainShape(Chain, first, last, Repr, K) && ChainLinks(Chain) && ChainValid(Chain)
    }

    /** The list's invariant: linked, no node empty, and size_ the number of elements. */
    ghost predicate Valid()
      reads this, Repr
    {
      Linked() && Shaped(Blocks(), K) && size == |Flatten(Blocks())|
    }

    /** The position of a linked node in the chain. */
    ghost function IndexOf(n: Node<T>): (i: nat)
      reads this`Chain
      requires n in Chain
      ensures i < |Chain| && Chain[i] == n
    {
      var i :| 0 <= i < |Chain| && Chain[i] == n; i
    }

    lemma {:induction false} IndexOfAt(k: nat)
      requires Linked() && k < |Chain|
      ensures IndexOf(Chain[k]) == k
    {
      Unaliased(Chain, IndexOf(Chain[k]), k);
    }

    /** What the invariant says about one linked node. */
    lemma {:induction false} NodeFacts(n: Node<T>)
      requires Linked() && n in Chain
      ensures var k := IndexOf(n);
        n.Valid() && n.K == K && n.size == |Blocks()[k]| && n.Contents == Blocks()[k]
        && n.prev == (if k == 0 then null else Chain[k - 1])
        && n.next == (if k == |Chain| - 1 then null else Chain[k + 1])
    {
      assert LinkAt(Chain, IndexOf(n));
    }

    /** The iterator as a cursor on the blocks. */
    ghost function CursorOf(it: Iter<T>): Cursor
      reads this
      requires it.node != null ==> it.node in Chain && 0 <= it.ind
    {
      if it.node == null then Null else At(IndexOf(it.node), it.ind)
    }

    /** An iterator into this list: one of its cursors, with (null, 0) only for the empty list. */
    ghost predicate IsIter(it: Iter<T>)
      reads this, Chain
    {
      (it.node == null ==> it.ind == 0)
      && (it.node != null ==> it.node in Chain && 0 <= it.ind)
      && IsCursor(Blocks(), CursorOf(it))
    }

    /** An empty list (unrolled_list.h:164-167, 180-181): no nodes. */
    constructor (k: nat)
      requires 0 < k
      ensures Valid() && K == k && Blocks() == [] && fresh(Repr)
    {
      K := k;
      first, last := null, null;
      size := 0;
      Chain, Repr := [], {};
    }

    /** size() (unrolled_list.h:234). */
    function Size(): (n: int)
      reads this, Repr
      requires Valid()
      ensures n == |Flatten(Blocks())|
    {
      size
    }

    /** empty() (unrolled_list.h:236): no elements, which is also no nodes. */
    function Empty(): (b: bool)
      reads this, Repr
      requires Valid()
      ensures b <==> Flatten(Blocks()) == []
      ensures b <==> Chain == []
    {
      assert Chain != [] ==> Flatten(Blocks()) == Blocks()[0] + Flatten(Blocks()[1..]);
      size == 0
    }

    /** The node after a linked node is the next one in the chain. */
    lemma {:induction false} NextIndex(n: Node<T>)
      requires Linked() && n in Chain && n.next != null
      ensures n.next in Chain && IndexOf(n.next) == IndexOf(n) + 1
    {
      NodeFacts(n);
      IndexOfAt(IndexOf(n) + 1);
    }

    /** The node before a linked node is the previous one in the chain. */
    lemma {:induction false} PrevIndex(n: Node<T>)
      requires Linked() && n in Chain && n.prev != null
      ensures n.prev in Chain && IndexOf(n.prev) + 1 == IndexOf(n)
    {
      NodeFacts(n);
      IndexOfAt(IndexOf(n) - 1);
    }

    /** begin() (unrolled_list.h:221): the first node at index 0. */
    function Begin(): (it: Iter<T>)
      reads this, Repr
      requires Valid()
      ensures IsIter(it) && CursorOf(it) == ChainModel.Begin(Blocks())
    {
      if first != null then IndexOfAt(0); Iter(first, 0) else Iter(first, 0)
    }

    /** end() (unrolled_list.h:222): the last node at index size(last); (null, 0) for the empty list. */
    function End(): (it: Iter<T>)
      reads this, Repr
      requires Valid()
      ensures IsIter(it) && CursorOf(it) == ChainModel.End(Blocks())
    {
      if last != null then IndexOfAt(|Chain| - 1); NodeFacts(last); Iter(last, last.size) else Iter(null, 0)
    }

    /**
     * Iterator ++ (unrolled_list.h:46-54): the cursor moves to the next
     * position of the list (lemma SuccStep).
     */
    function Inc(it: Iter<T>): (r: Iter<T>)
      reads this, Repr
      requires Valid() && IsIter(it) && CursorOf(it) != ChainModel.End(Blocks())
      ensures IsIter(r) && CursorOf(r) == Succ(Blocks(), CursorOf(it))
    {
      var n := it.node;
      NodeFacts(n);
      if n.next != null && n.size - 1 == it.ind then NextIndex(n); Iter(n.next, 0) else Iter(n, it.ind + 1)
    }

    /**
     * Iterator -- (unrolled_list.h:55-63): the cursor moves to the
     * previous position of the list (lemma PredStep).
     */
    function Dec(it: Iter<T>): (r: Iter<T>)
      reads this, Repr
      requires Valid() && IsIter(it) && CursorOf(it) != ChainModel.Begin(Blocks())
      ensures IsIter(r) && CursorOf(r) == Pred(Blocks(), CursorOf(it))
    {
      var n := it.node;
      NodeFacts(n);
      if n.prev != null && it.ind == 0 then PrevIndex(n); NodeFacts(n.prev); Iter(n.prev, n.prev.size - 1) else Iter(n, it.ind - 1)
    }

    /** operator* (unrolled_list.h:94): the element the iterator designates. */
    function Get(it: Iter<T>): (x: T)
      reads this, Repr
      requires Valid() && IsIter(it) && CursorOf(it) != ChainModel.End(Blocks())
      ensures Pos(Blocks(), CursorOf(it)) < |Flatten(Blocks())|
      ensures x == Flatten(Blocks())[Pos(Blocks(), CursorOf(it))]
    {
      Designates(Blocks(), CursorOf(it), K);
      NodeFacts(it.node);
      it.node.Get(it.ind)
    }

    /** front() (unrolled_list.h:460-465): *begin(), the first element. */
    function Front(): (x: T)
      reads this, Repr
      requires Valid() && Chain != []
      ensures Flatten(Blocks()) != [] && x == Flatten(Blocks())[0]
    {
      BeginEnd(Blocks(), K);
      assert Flatten(Blocks()) == Blocks()[0] + Flatten(Blocks()[1..]);
      Get(Begin())
    }

    /** back() (unrolled_list.h:466-471): *(--end()), the last element. */
    function Back(): (x: T)
      reads this, Repr
      requires Valid() && Chain != []
      ensures Flatten(Blocks()) != [] && x == Flatten(Blocks())[|Flatten(Blocks())| - 1]
    {
      BeginEnd(Blocks(), K);
      assert Flatten(Blocks()) == Blocks()[0] + Flatten(Blocks()[1..]);
      PredStep(Blocks(), ChainModel.End(Blocks()), K);
      Get(Dec(End()))
    }

    /**
     * One node's contents changed in place and nothing else did: the list
     * stays linked, and its blocks change at that node only.
     */
    twostate lemma {:induction false} InPlace(k: nat)
      requires old(Linked()) && k < |old(Chain)|
      requires Chain == old(Chain) && Repr == old(Repr) && first == old(first) && last == old(last)
      requires Chain[k].Valid() && LinksKept(Chain[k])
      requires unchanged(Repr - {Chain[k], Chain[k].slots})
      ensures Linked() && Blocks() == old(Blocks())[k := Chain[k].Contents]
    {
      forall i | 0 <= i < |Chain|
        ensures LinkAt(Chain, i)
        ensures Chain[i].Valid() && (i != k ==> Chain[i].Contents == old(Chain[i].Contents))
      {
        assert old(LinkAt(Chain, i));
        Unaliased(Chain, i, k);
        if i != k {
          assert Chain[i] in Repr - {Chain[k], Chain[k].slots};
          assert Chain[i].slots in Repr - {Chain[k], Chain[k].slots};
          assert old(Chain[i].Valid());
        }
      }
    }

    /** Nothing changed outside the nodes lo to hi - 1: the nodes outside keep their contents and links. */
    twostate lemma {:induction false} KeptOutside(new c: Cut<T>)
      requires old(Linked()) && c.a <= c.b <= |old(Chain)|
      requires unchanged(old(Repr) - Span(old(Chain)[c.a..c.b]))
      ensures forall i :: 0 <= i < |old(Chain)| && (i < c.a || c.b <= i) ==>
        ContentsKept(old(Chain)[i]) && LinksKept(old(Chain)[i])
    {
      var os := old(Chain);
      forall i | 0 <= i < |os| && (i < c.a || c.b <= i) ensures ContentsKept(os[i]) && LinksKept(os[i]) {
        SpanAway(os, c.a, c.b, i);
        assert os[i] in old(Repr) - Span(os[c.a..c.b]) && os[i].slots in old(Repr) - Span(os[c.a..c.b]);
      }
    }

    /**
     * The nodes a splice of [a, b) keeps are valid, with their old
     * contents, when nothing outside the nodes a - 1 to b changed and the
     * seams keep their contents.
     */
    twostate lemma {:induction false} SurvivorsValid(new c: Cut<T>)
      requires old(Linked()) && c.a <= c.b <= |old(Chain)|
      requires unchanged(old(Repr) - Span(old(Chain)[SeamLo(c.a)..SeamHi(c.b, |old(Chain)|)]))
      requires 0 < c.a ==> ContentsKept(old(Chain)[c.a - 1])
      requires c.b < |old(Chain)| ==> ContentsKept(old(Chain)[c.b])
      ensures forall i :: 0 <= i < |old(Chain)| && (i < c.a || c.b <= i) ==>
        old(Chain)[i].Valid() && old(Chain)[i].Contents == old(Blocks())[i]
    {
      var os, a, b := old(Chain), c.a, c.b;
      var lo, hi := SeamLo(a), SeamHi(b, |os|);
      KeptOutside(Cut(lo, hi, []));
      forall i | 0 <= i < |os| && (i < a || b <= i) ensures os[i].Valid() && os[i].Contents == old(Blocks())[i] {
        if lo <= i < hi {
          assert i + 1 == a || i == b;
        }
        assert old(os[i].Valid());
      }
    }

    /**
     * The nodes a splice of [a, b) keeps are linked as they were, but for
     * the inner links of the seams, when nothing outside the nodes a - 1 to
     * b changed and the seams keep their outer links.
     */
    twostate lemma {:induction false} SurvivorsLinked(new c: Cut<T>)
      requires old(Linked()) && c.a <= c.b <= |old(Chain)|
      requires unchanged(old(Repr) - Span(old(Chain)[SeamLo(c.a)..SeamHi(c.b, |old(Chain)|)]))
      requires 0 < c.a ==> PrevKept(old(Chain)[c.a - 1])
      requires c.b < |old(Chain)| ==> NextKept(old(Chain)[c.b])
      ensures forall i :: 0 <= i < |old(Chain)| && (i + 1 < c.a || c.b < i) ==> LinkAt(old(Chain), i)
      ensures 0 < c.a ==> old(Chain)[c.a - 1].prev == (if c.a == 1 then null else old(Chain)[c.a - 2])
      ensures c.b < |old(Chain)| ==> old(Chain)[c.b].next == (if c.b == |old(Chain)| - 1 then null else old(Chain)[c.b + 1])
    {
      var os, a, b := old(Chain), c.a, c.b;
      var lo, hi := SeamLo(a), SeamHi(b, |os|);
      KeptOutside(Cut(lo, hi, []));
      forall i | 0 <= i < |os| && (i + 1 < a || b < i) ensures LinkAt(os, i) {
        assert i < lo || hi <= i;
        assert old(LinkAt(os, i));
      }
      if 0 < a {
        assert old(LinkAt(os, a - 1));
      }
      if b < |os| {
        assert old(LinkAt(os, b));
      }
    }

    /**
     * The chain's nodes [a, b) replaced by `mid`, each of which is one of
     * them or a node (with its storage) new since the old state; `mid`
     * valid and linked to the seams at a - 1 and b; nothing changed outside
     * the nodes from a - 1 to b; the seams keeping their contents and their
     * outer links.
     */
    twostate predicate Rechainable(new c: Cut<T>)
      reads *
    {
      old(Linked()) && c.a <= c.b <= |old(Chain)|
      && Spliced(Chain, old(Chain), c.a, c.b, c.mid)
      && this !in Repr && old(Repr) - Span(old(Chain)[c.a..c.b]) <= Repr
      && first == (if Chain == [] then null else Chain[0])
      && last == (if Chain == [] then null else Chain[|Chain| - 1])
      && (forall j :: 0 <= j < |c.mid| ==> c.mid[j] in Repr && c.mid[j].slots in Repr && c.mid[j].K == K)
      && (forall j :: 0 <= j < |c.mid| ==>
           c.mid[j] in old(Chain)[c.a..c.b] || (c.mid[j] !in old(Repr) && c.mid[j].slots !in old(Repr)))
      && Distinct(c.mid) && ChainValid(c.mid)
      && unchanged(old(Repr) - Span(old(Chain)[SeamLo(c.a)..SeamHi(c.b, |old(Chain)|)]))
      && (0 < c.a ==> ContentsKept(old(Chain)[c.a - 1]) && PrevKept(old(Chain)[c.a - 1]))
      && (0 < c.a ==> old(Chain)[c.a - 1].next == if c.a < |Chain| then Chain[c.a] else null)
      && (c.b < |old(Chain)| ==> ContentsKept(old(Chain)[c.b]) && NextKept(old(Chain)[c.b]))
      && (c.b < |old(Chain)| ==> old(Chain)[c.b].prev == if 0 < c.a + |c.mid| then Chain[c.a + |c.mid| - 1] else null)
      && (forall i :: c.a <= i < c.a + |c.mid| ==> LinkAt(Chain, i))
    }

    /** After a splice, the chain has the shape of the list's chain. */
    twostate lemma {:induction false} RechainShape(new c: Cut<T>)
      requires Rechainable(c)
      ensures ChainShape(Chain, first, last, Repr, K)
    {
      SpliceShape(Chain, old(Chain), c.a, c.b, c.mid, old(first), old(last), old(Repr), first, last, Repr, K);
    }

    /** After a splice, every node of the chain is valid. */
    twostate lemma {:induction false} RechainValid(new c: Cut<T>)
      requires old(Linked()) && c.a <= c.b <= |old(Chain)| && Spliced(Chain, old(Chain), c.a, c.b, c.mid)
      requires unchanged(old(Repr) - Span(old(Chain)[SeamLo(c.a)..SeamHi(c.b, |old(Chain)|)]))
      requires 0 < c.a ==> ContentsKept(old(Chain)[c.a - 1])
      requires c.b < |old(Chain)| ==> ContentsKept(old(Chain)[c.b])
      requires ChainValid(c.mid)
      ensures ChainValid(Chain)
    {
      SurvivorsValid(c);
      SpliceValid(Chain, old(Chain), c.a, c.b, c.mid);
    }

    /** After a splice, the nodes of the chain are linked in order. */
    twostate lemma {:induction false} RechainLinks(new c: Cut<T>)
      requires old(Linked()) && c.a <= c.b <= |old(Chain)| && Spliced(Chain, old(Chain), c.a, c.b, c.mid)
      requires unchanged(old(Repr) - Span(old(Chain)[SeamLo(c.a)..SeamHi(c.b, |old(Chain)|)]))
      requires 0 < c.a ==> PrevKept(old(Chain)[c.a - 1])
      requires 0 < c.a ==> old(Chain)[c.a - 1].next == if c.a < |Chain| then Chain[c.a] else null
      requires c.b < |old(Chain)| ==> NextKept(old(Chain)[c.b])
      requires c.b < |old(Chain)| ==> old(Chain)[c.b].prev == if 0 < c.a + |c.mid| then Chain[c.a + |c.mid| - 1] else null
      requires forall i :: c.a <= i < c.a + |c.mid| ==> LinkAt(Chain, i)
      ensures ChainLinks(Chain)
    {
      SurvivorsLinked(c);
      SpliceLinks(Chain, old(Chain), c.a, c.b, c.mid);
    }

    /** After a splice, the blocks are spliced alike. */
    twostate lemma {:induction false} RechainBlocks(new c: Cut<T>)
      requires old(Linked()) && c.a <= c.b <= |old(Chain)| && Spliced(Chain, old(Chain), c.a, c.b, c.mid)
      requires unchanged(old(Repr) - Span(old(Chain)[SeamLo(c.a)..SeamHi(c.b, |old(Chain)|)]))
      requires 0 < c.a ==> ContentsKept(old(Chain)[c.a - 1])
      requires c.b < |old(Chain)| ==> ContentsKept(old(Chain)[c.b])
      ensures Blocks() == old(Blocks())[..c.a] + BlocksOf(c.mid) + old(Blocks())[c.b..]
    {
      SurvivorsValid(c);
      SpliceBlocks(Chain, old(Chain), c.a, c.b, c.mid, old(Blocks()));
      SplicedIsConcat(Blocks(), old(Blocks()), c.a, c.b, BlocksOf(c.mid));
    }

    /**
     * A splice as Rechainable describes: the list is linked again, and its
     * blocks are the old ones with those of [a, b) replaced by those of `mid`.
     */
    twostate lemma {:induction false} Rechain(new c: Cut<T>)
      requires Rechainable(c)
      ensures Linked() && Blocks() == old(Blocks())[..c.a] + BlocksOf(c.mid) + old(Blocks())[c.b..]
    {
      RechainShape(c);
      RechainValid(c);
      RechainLinks(c);
      RechainBlocks(c);
    }

    /** LinkNodes (unrolled_list.h:833-840): right's prev becomes left and left's next becomes right, each if not null. */
    static method LinkNodes(left: Node?<T>, right: Node?<T>)
      modifies Only(right)`prev, Only(left)`next
      ensures right != null ==> right.prev == left
      ensures left != null ==> left.next == right
    {
      if right != null {
        right.prev := left;
      }
      if left != null {
        left.next := right;
      }
    }

    /**
     * A valid node `n`, new since the old state, linked after the old last
     * node (if any) and made the last node, nothing else changed: the list
     * is linked again, with one more block.
     */
    twostate lemma {:induction false} Appended(new n: Node<T>)
      requires old(Linked()) && n.Valid() && n.K == K
      requires n !in old(Repr) && n.slots !in old(Repr)
      requires Chain == old(Chain) + [n] && Repr == old(Repr) + {n, n.slots}
      requires first == (if old(first) == null then n else old(first)) && last == n
      requires n.prev == old(last) && n.next == null
      requires unchanged(old(Repr) - Only(old(last)))
      requires old(last) != null ==> ContentsKept(old(last)) && old(last).prev == old(last.prev) && old(last).next == n
      ensures Linked() && Blocks() == old(Blocks()) + [n.Contents]
    {
      var os, m := old(Chain), |old(Chain)|;
      assert os[..m] + [n] + os[m..] == Chain;
      assert Around(os, m) == Only(old(last));
      Grown(Cut(m, m, [n]));
      assert old(Blocks())[..m] == old(Blocks()) && old(Blocks())[m..] == [];
    }

    /**
     * A valid node `n`, new since the old state, linked before the old
     * first node (if any) and made the first node, nothing else changed:
     * the list is linked again, with one more block in front.
     */
    twostate lemma {:induction false} Prepended(new n: Node<T>)
      requires old(Linked()) && n.Valid() && n.K == K
      requires n !in old(Repr) && n.slots !in old(Repr)
      requires Chain == [n] + old(Chain) && Repr == old(Repr) + {n, n.slots}
      requires last == (if old(last) == null then n else old(last)) && first == n
      requires n.next == old(first) && n.prev == null
      requires unchanged(old(Repr) - Only(old(first)))
      requires old(first) != null ==> ContentsKept(old(first)) && old(first).next == old(first.next) && old(first).prev == n
      ensures Linked() && Blocks() == [n.Contents] + old(Blocks())
    {
      var os := old(Chain);
      assert os[..0] + [n] + os[0..] == Chain;
      assert Around(os, 0) == Only(old(first));
      Grown(Cut(0, 0, [n]));
      assert old(Blocks())[..0] == [] && old(Blocks())[0..] == old(Blocks());
    }

    /** The frame of unlinking node k, restated as the frame lemma Rechain takes. */
    twostate lemma {:induction false} UnlinkFrame(k: nat)
      requires old(Linked()) && k < |old(Chain)|
      requires Repr == old(Repr) - {old(Chain[k]), old(Chain[k]).slots}
      requires unchanged(Repr - Neighbours(old(Chain), k))
      ensures unchanged(old(Repr) - Span(old(Chain)[SeamLo(k)..SeamHi(k + 1, |old(Chain)|)]))
      ensures old(Repr) - Span(old(Chain)[k..k + 1]) <= Repr
    {
      var os := old(Chain);
      var lo, hi := SeamLo(k), SeamHi(k + 1, |os|);
      SpanHas(os[lo..hi], k - lo);
      if 0 < k {
        SpanHas(os[lo..hi], 0);
      }
      if k + 1 < |os| {
        SpanHas(os[lo..hi], k + 1 - lo);
      }
      assert Span(os[k..k + 1]) == {os[k], os[k].slots} by {
        assert os[k..k + 1][1..] == [];
      }
    }

    /**
     * Node k unlinked: its neighbours linked to each other, nothing else
     * changed but node k itself, which leaves the chain and the
     * representation. The list is linked again, without block k.
     */
    twostate lemma {:induction false} Unlinked(k: nat)
      requires old(Linked()) && k < |old(Chain)|
      requires Chain == old(Chain[..k] + Chain[k + 1..])
      requires Repr == old(Repr) - {old(Chain[k]), old(Chain[k]).slots}
      requires first == (if Chain == [] then null else Chain[0])
      requires last == (if Chain == [] then null else Chain[|Chain| - 1])
      requires unchanged(Repr - Neighbours(old(Chain), k))
      requires 0 < k ==> ContentsKept(old(Chain)[k - 1]) && old(Chain)[k - 1].prev == old(Chain[k - 1].prev)
      requires 0 < k ==> old(Chain)[k - 1].next == if k + 1 < |old(Chain)| then old(Chain)[k + 1] else null
      requires k + 1 < |old(Chain)| ==> ContentsKept(old(Chain)[k + 1]) && old(Chain)[k + 1].next == old(Chain[k + 1].next)
      requires k + 1 < |old(Chain)| ==> old(Chain)[k + 1].prev == if 0 < k then old(Chain)[k - 1] else null
      ensures Linked() && Blocks() == RemoveBlock(old(Blocks()), k)
    {
      var os := old(Chain);
      UnlinkFrame(k);
      SplicedConcat(os, k, k + 1, []);
      assert os[..k] + [] + os[k + 1..] == Chain;
      assert os[k..k + 1] == [os[k]];
      assert this !in old(Repr);
      Rechain(Cut(k, k + 1, []));
    }

    /**
     * Nodes k and k + 1 changed in place, their links and everything else
     * left as it was: the list is linked, with those two blocks replaced.
     */
    twostate lemma {:induction false} PairInPlace(k: nat)
      requires old(Linked()) && k + 1 < |old(Chain)|
      requires Chain == old(Chain) && Repr == old(Repr) && first == old(first) && last == old(last)
      requires Chain[k].Valid() && Chain[k + 1].Valid()
      requires LinksKept(Chain[k]) && LinksKept(Chain[k + 1])
      requires unchanged(Repr - {Chain[k], Chain[k].slots, Chain[k + 1], Chain[k + 1].slots})
      ensures Linked() && Blocks() == old(Blocks())[k := Chain[k].Contents][k + 1 := Chain[k + 1].Contents]
    {
      var x, y := Chain[k], Chain[k + 1];
      forall i | 0 <= i < |Chain| && i != k && i != k + 1
        ensures ContentsKept(Chain[i]) && LinksKept(Chain[i])
      {
        Unaliased(Chain, i, k);
        Unaliased(Chain, i, k + 1);
        assert Chain[i] in Repr - {x, x.slots, y, y.slots};
        assert Chain[i].slots in Repr - {x, x.slots, y, y.slots};
      }
      forall i | 0 <= i < |Chain|
        ensures LinkAt(Chain, i) && Chain[i].Valid()
      {
        assert old(LinkAt(Chain, i));
        if i != k && i != k + 1 {
          assert old(Chain[i].Valid());
        }
      }
      var bs := old(Blocks())[k := x.Contents][k + 1 := y.Contents];
      forall i | 0 <= i < |bs| ensures Blocks()[i] == bs[i] {
      }
    }

    /** The invariant, from the links and what the blocks are. */
    lemma {:induction false} Conclude(bs: seq<seq<T>>)
      requires Linked() && Blocks() == bs && Shaped(bs, K) && size == |Flatten(bs)|
      ensures Valid()
    {
    }

    /**
     * Links a new node after the last one (unrolled_list.h:526-535): it
     * becomes the last node, and the first too when the list had none.
     */
    method AppendNode(n: Node<T>)
      requires Linked() && n.Valid() && n.K == K && n !in Repr && n.slots !in Repr
      requires n.prev == null && n.next == null
      modifies this, Only(last)`next, n`prev
      ensures Linked() && Blocks() == old(Blocks()) + [n.Contents]
      ensures Chain == old(Chain) + [n] && Repr == old(Repr) + {n, n.slots} && size == old(size) + n.size
    {
      if last == null {
        first, last := n, n;
      } else {
        LinkNodes(last, n);
        last := n;
      }
      Chain, Repr, size := Chain + [n], Repr + {n, n.slots}, size + n.size;
      Appended(n);
    }

    /**
     * Links a new node before the first one (unrolled_list.h:487-493): it
     * becomes the first node, and the last too when the list had none.
     */
    method PrependNode(n: Node<T>)
      requires Linked() && n.Valid() && n.K == K && n !in Repr && n.slots !in Repr
      requires n.prev == null && n.next == null
      modifies this, Only(first)`prev, n`next
      ensures Linked() && Blocks() == [n.Contents] + old(Blocks())
      ensures Chain == [n] + old(Chain) && Repr == old(Repr) + {n, n.slots} && size == old(size) + n.size
    {
      if first == null {
        first, last := n, n;
      } else {
        LinkNodes(n, first);
        first := n;
      }
      Chain, Repr, size := [n] + Chain, Repr + {n, n.slots}, size + n.size;
      Prepended(n);
    }

    /**
     * The unlinking part of EraseNode (unrolled_list.h:639-646, 650): first
     * and last move past the node when it is at an end, its elements are
     * taken off size_, and its neighbours are linked to each other.
     */
    method Detach(n: Node<T>)
      requires Linked() && n in Chain
      modifies this, Only(n.prev)`next, Only(n.next)`prev
      ensures Linked()
      ensures var k := old(IndexOf(n));
        Chain == old(Chain[..k] + Chain[k + 1..]) && Blocks() == RemoveBlock(old(Blocks()), k)
        && Repr == old(Repr) - {n, n.slots} && size == old(size) - old(n.size)
    {
      ghost var k, os := IndexOf(n), Chain;
      NodeFacts(n);
      var prev, next := n.prev, n.next;
      if prev != null && next != null {
        Unaliased(os, k - 1, k + 1);
      }
      if prev == null {
        first := next;
      }
      if next == null {
        last := prev;
      }
      size := size - n.size;
      LinkNodes(prev, next);
      Chain, Repr := Chain[..k] + Chain[k + 1..], Repr - {n, n.slots};
      Unlinked(k);
    }

    /**
     * EraseNode (unrolled_list.h:636-651): a node of the chain is unlinked
     * (Detach) and destroyed. A null pointer changes nothing.
     */
    method EraseNode(n: Node?<T>)
      requires Linked() && (n != null ==> n in Chain)
      modifies this, Repr
      ensures n == null ==> unchanged(this) && unchanged(Repr)
      ensures Linked()
      ensures n != null ==> var k := old(IndexOf(n));
        Chain == old(Chain[..k] + Chain[k + 1..]) && Blocks() == RemoveBlock(old(Blocks()), k)
        && Repr == old(Repr) - {n, n.slots} && size == old(size) - old(n.size)
    {
      if n == null {
        return;
      }
      NodeFacts(n);
      Detach(n);
      n.Destroy();
    }

    /**
     * CreateEmptyNode (unrolled_list.h:841-845) followed by the node's
     * push_back (`atBack`) or push_front: a fresh unlinked node holding `v` alone.
     */
    static method Single(k: nat, v: T, atBack: bool) returns (n: Node<T>)
      requires 0 < k
      ensures fresh(n) && fresh(n.slots) && n.Valid() && n.K == k && n.Contents == [v]
      ensures n.prev == null && n.next == null
    {
      n := new Node(k);
      var ok;
      if atBack {
        ok := n.PushBack(v);
      } else {
        ok := n.PushFront(v);
      }
    }

    /**
     * The new-node branch of push_back (unrolled_list.h:526-535): a fresh
     * node holding `v` alone, linked after the last one.
     */
    method GrowBack(v: T)
      requires Linked()
      modifies this, Only(last)`next
      ensures Linked() && Blocks() == old(Blocks()) + [[v]]
      ensures size == old(size) + 1 && fresh(Repr - old(Repr))
    {
      var n := Single(K, v, true);
      AppendNode(n);
    }

    /** The new-node branch of push_front (unrolled_list.h:487-493): a fresh node holding `v` alone, linked before the first. */
    method GrowFront(v: T)
      requires Linked()
      modifies this, Only(first)`prev
      ensures Linked() && Blocks() == [[v]] + old(Blocks())
      ensures size == old(size) + 1 && fresh(Repr - old(Repr))
    {
      var n := Single(K, v, false);
      PrependNode(n);
    }

    /** The in-place branch of push_back (unrolled_list.h:517): `v` goes after the last node's elements. */
    method PushIntoLast(v: T)
      requires Linked() && last != null && last.size < K
      modifies this`size, last`left, last`size, last`Contents, last.slots
      ensures Linked() && Chain == old(Chain) && Repr == old(Repr) && size == old(size) + 1
      ensures Blocks() == old(Blocks())[|Chain| - 1 := old(Blocks())[|Chain| - 1] + [v]]
    {
      IndexOfAt(|Chain| - 1);
      NodeFacts(last);
      var ok := last.PushBack(v);
      size := size + 1;
      InPlace(|Chain| - 1);
    }

    /** The in-place branch of push_front (unrolled_list.h:480): `v` goes before the first node's elements. */
    method PushIntoFirst(v: T)
      requires Linked() && first != null && first.size < K
      modifies this`size, first`left, first`size, first`Contents, first.slots
      ensures Linked() && Chain == old(Chain) && Repr == old(Repr) && size == old(size) + 1
      ensures Blocks() == old(Blocks())[0 := [v] + old(Blocks())[0]]
    {
      IndexOfAt(0);
      NodeFacts(first);
      var ok := first.PushFront(v);
      size := size + 1;
      InPlace(0);
    }

    /**
     * push_back (unrolled_list.h:508-537): into the last node, or into a new
     * node linked after it when there is none or it is full.
     */
    method PushBack(v: T)
      requires Valid()
      modifies this, Repr
      ensures Valid() && Blocks() == PushBackBlocks(old(Blocks()), v, K)
      ensures Flatten(Blocks()) == Flatten(old(Blocks())) + [v]
      ensures fresh(Repr - old(Repr))
    {
      ghost var bs := Blocks();
      PushBackBlocksSpec(bs, v, K);
      if last != null {
        IndexOfAt(|Chain| - 1);
        NodeFacts(last);
      }
      if last == null || last.size == K {
        GrowBack(v);
      } else {
        PushIntoLast(v);
      }
      Conclude(PushBackBlocks(bs, v, K));
    }

    /**
     * push_front (unrolled_list.h:472-496): into the first node, or into a
     * new node linked before it when there is none or it is full.
     */
    method PushFront(v: T)
      requires Valid()
      modifies this, Repr
      ensures Valid() && Blocks() == PushFrontBlocks(old(Blocks()), v, K)
      ensures Flatten(Blocks()) == [v] + Flatten(old(Blocks()))
      ensures fresh(Repr - old(Repr))
    {
      ghost var bs := Blocks();
      PushFrontBlocksSpec(bs, v, K);
      if first != null {
        IndexOfAt(0);
        NodeFacts(first);
      }
      if first == null || first.size == K {
        GrowFront(v);
      } else {
        PushIntoFirst(v);
      }
      Conclude(PushFrontBlocks(bs, v, K));
    }

    /** The node part of pop_back (unrolled_list.h:543-544): the last node's last element goes, and size_ drops. */
    method PopFromLast()
      requires Linked() && last != null && 0 < last.size
      modifies this`size, last`size, last`Contents, last.slots
      ensures Linked() && Chain == old(Chain) && Repr == old(Repr) && size == old(size) - 1
      ensures var b := old(Blocks())[|Chain| - 1]; 0 < |b| && Blocks() == old(Blocks())[|Chain| - 1 := b[..|b| - 1]]
    {
      IndexOfAt(|Chain| - 1);
      NodeFacts(last);
      last.PopBack();
      size := size - 1;
      InPlace(|Chain| - 1);
    }

    /** The node part of pop_front (unrolled_list.h:502-503): the first node's first element goes, and size_ drops. */
    method PopFromFirst()
      requires Linked() && first != null && 0 < first.size
      modifies this`size, first`left, first`size, first`Contents, first.slots
      ensures Linked() && Chain == old(Chain) && Repr == old(Repr) && size == old(size) - 1
      ensures var b := old(Blocks())[0]; 0 < |b| && Blocks() == old(Blocks())[0 := b[1..]]
    {
      IndexOfAt(0);
      NodeFacts(first);
      first.PopFront();
      size := size - 1;
      InPlace(0);
    }

    /**
     * pop_back on a non-empty list (unrolled_list.h:543-547): the last
     * element goes, and the last node is erased if that empties it.
     */
    method PopLastElement()
      requires Linked() && last != null && 0 < last.size
      modifies this, Repr
      ensures Linked() && Blocks() == PopBackBlocks(old(Blocks()))
      ensures Repr <= old(Repr) && size == old(size) - 1
    {
      ghost var bs, m := Blocks(), |Chain| - 1;
      IndexOfAt(m);
      NodeFacts(last);
      PopFromLast();
      ghost var cs := Blocks();
      IndexOfAt(m);
      NodeFacts(last);
      if last.size == 0 {
        EraseNode(last);
        assert cs[..m] == bs[..m] && cs[m + 1..] == [];
      }
    }

    /** The first node is erased when it holds nothing (unrolled_list.h:505). */
    method DropFirstIfEmpty()
      requires Linked() && first != null
      modifies this, Repr
      ensures Linked() && Repr <= old(Repr) && size == old(size)
      ensures var bs := old(Blocks()); bs != [] && Blocks() == if bs[0] == [] then bs[1..] else bs
    {
      IndexOfAt(0);
      NodeFacts(first);
      if first.size == 0 {
        ghost var bs := Blocks();
        EraseNode(first);
        assert bs[..0] + bs[1..] == bs[1..];
      }
    }

    /**
     * pop_front on a non-empty list (unrolled_list.h:502-506): the first
     * element goes, and the first node is erased if that empties it.
     */
    method PopFirstElement()
      requires Linked() && first != null && 0 < first.size
      modifies this, Repr
      ensures Linked() && Blocks() == PopFrontBlocks(old(Blocks()))
      ensures Repr <= old(Repr) && size == old(size) - 1
    {
      PopFromFirst();
      DropFirstIfEmpty();
    }

    /** pop_back (unrolled_list.h:539-548): nothing on an empty list, else PopLastElement. */
    method PopBack()
      requires Valid()
      modifies this, Repr
      ensures Valid() && Blocks() == PopBackBlocks(old(Blocks())) && Repr <= old(Repr)
      ensures old(Flatten(Blocks())) == [] ==> Flatten(Blocks()) == []
      ensures old(Flatten(Blocks())) != [] ==> Flatten(Blocks()) == old(Flatten(Blocks()))[..|old(Flatten(Blocks()))| - 1]
    {
      ghost var bs := Blocks();
      PopBackBlocksSpec(bs, K);
      if size == 0 {
        return;
      }
      IndexOfAt(|Chain| - 1);
      NodeFacts(last);
      PopLastElement();
      Conclude(PopBackBlocks(bs));
    }

    /** pop_front (unrolled_list.h:498-507): nothing on an empty list, else PopFirstElement. */
    method PopFront()
      requires Valid()
      modifies this, Repr
      ensures Valid() && Blocks() == PopFrontBlocks(old(Blocks())) && Repr <= old(Repr)
      ensures old(Flatten(Blocks())) == [] ==> Flatten(Blocks()) == []
      ensures old(Flatten(Blocks())) != [] ==> Flatten(Blocks()) == old(Flatten(Blocks()))[1..]
    {
      ghost var bs := Blocks();
      PopFrontBlocksSpec(bs, K);
      if size == 0 {
        return;
      }
      IndexOfAt(0);
      NodeFacts(first);
      PopFirstElement();
      Conclude(PopFrontBlocks(bs));
    }

    // ------------------------------------------------------------ insert

    /** The frame of linking a node in before entry a, restated as the frame lemma Rechain takes. */
    twostate lemma {:induction false} GrowFrame(new c: Cut<T>)
      requires old(Linked()) && c.a <= |old(Chain)|
      requires unchanged(old(Repr) - Around(old(Chain), c.a))
      ensures unchanged(old(Repr) - Span(old(Chain)[SeamLo(c.a)..SeamHi(c.a, |old(Chain)|)]))
    {
      var os, a := old(Chain), c.a;
      var lo, hi := SeamLo(a), SeamHi(a, |os|);
      if 0 < a {
        SpanHas(os[lo..hi], a - 1 - lo);
      }
      if a < |os| {
        SpanHas(os[lo..hi], a - lo);
      }
    }

    /** After a node new since the old state is linked in before entry a, the chain has the list's shape. */
    twostate lemma {:induction false} GrownShape(new c: Cut<T>)
      requires old(Linked()) && c.a == c.b <= |old(Chain)| && |c.mid| == 1
      requires c.mid[0].K == K && c.mid[0] !in old(Repr) && c.mid[0].slots !in old(Repr)
      requires Chain == old(Chain)[..c.a] + c.mid + old(Chain)[c.a..] && Repr == old(Repr) + {c.mid[0], c.mid[0].slots}
      requires first == Chain[0] && last == Chain[|Chain| - 1]
      ensures ChainShape(Chain, first, last, Repr, K) && this !in Repr
    {
      var os, a := old(Chain), c.a;
      assert os[a..a] == [];
      SplicedConcat(os, a, a, c.mid);
      assert Distinct(c.mid);
      SpliceShape(Chain, os, a, a, c.mid, old(first), old(last), old(Repr), first, last, Repr, K);
    }

    /** After a node is linked in before entry a and its neighbours point at it, the chain is linked in order. */
    twostate lemma {:induction false} GrownLinks(new c: Cut<T>)
      requires old(Linked()) && c.a == c.b <= |old(Chain)| && |c.mid| == 1
      requires Chain == old(Chain)[..c.a] + c.mid + old(Chain)[c.a..]
      requires c.mid[0].prev == (if c.a == 0 then null else old(Chain)[c.a - 1])
      requires c.mid[0].next == (if c.a == |old(Chain)| then null else old(Chain)[c.a])
      requires unchanged(old(Repr) - Span(old(Chain)[SeamLo(c.a)..SeamHi(c.a, |old(Chain)|)]))
      requires 0 < c.a ==> PrevKept(old(Chain)[c.a - 1]) && old(Chain)[c.a - 1].next == c.mid[0]
      requires c.a < |old(Chain)| ==> NextKept(old(Chain)[c.a]) && old(Chain)[c.a].prev == c.mid[0]
      ensures ChainLinks(Chain)
    {
      var os, a := old(Chain), c.a;
      SplicedConcat(os, a, a, c.mid);
      assert Chain[a] == c.mid[0] && LinkAt(Chain, a);
      RechainLinks(c);
    }

    /** After a valid node is linked in before entry a, every node is valid and the blocks gain its contents there. */
    twostate lemma {:induction false} GrownValid(new c: Cut<T>)
      requires old(Linked()) && c.a == c.b <= |old(Chain)| && |c.mid| == 1 && c.mid[0].Valid()
      requires Chain == old(Chain)[..c.a] + c.mid + old(Chain)[c.a..]
      requires unchanged(old(Repr) - Span(old(Chain)[SeamLo(c.a)..SeamHi(c.a, |old(Chain)|)]))
      requires 0 < c.a ==> ContentsKept(old(Chain)[c.a - 1])
      requires c.a < |old(Chain)| ==> ContentsKept(old(Chain)[c.a])
      ensures ChainValid(Chain) && Blocks() == old(Blocks())[..c.a] + [c.mid[0].Contents] + old(Blocks())[c.a..]
    {
      var os, a := old(Chain), c.a;
      SplicedConcat(os, a, a, c.mid);
      assert ChainValid(c.mid);
      RechainValid(c);
      RechainBlocks(c);
      assert BlocksOf(c.mid) == [c.mid[0].Contents];
    }

    /**
     * A valid node new since the old state, linked into the gap before
     * entry a of the chain, nothing else changed but the links of its two
     * neighbours toward it: the list is linked again, with its block there.
     */
    twostate lemma {:induction false} Grown(new c: Cut<T>)
      requires old(Linked()) && c.a == c.b <= |old(Chain)| && |c.mid| == 1
      requires c.mid[0].Valid() && c.mid[0].K == K && c.mid[0] !in old(Repr) && c.mid[0].slots !in old(Repr)
      requires Chain == old(Chain)[..c.a] + c.mid + old(Chain)[c.a..] && Repr == old(Repr) + {c.mid[0], c.mid[0].slots}
      requires first == Chain[0] && last == Chain[|Chain| - 1]
      requires c.mid[0].prev == (if c.a == 0 then null else old(Chain)[c.a - 1])
      requires c.mid[0].next == (if c.a == |old(Chain)| then null else old(Chain)[c.a])
      requires unchanged(old(Repr) - Around(old(Chain), c.a))
      requires 0 < c.a ==> ContentsKept(old(Chain)[c.a - 1]) && PrevKept(old(Chain)[c.a - 1]) && old(Chain)[c.a - 1].next == c.mid[0]
      requires c.a < |old(Chain)| ==> ContentsKept(old(Chain)[c.a]) && NextKept(old(Chain)[c.a]) && old(Chain)[c.a].prev == c.mid[0]
      ensures Linked() && Blocks() == old(Blocks())[..c.a] + [c.mid[0].Contents] + old(Blocks())[c.a..]
    {
      GrowFrame(c);
      GrownShape(c);
      GrownLinks(c);
      GrownValid(c);
    }

    /**
     * The two LinkNodes calls that put `m` between `n` and its successor
     * (unrolled_list.h:717-718): afterwards n, m and the old successor are
     * linked in that order, and no other link changed.
     */
    static method Interpose(n: Node<T>, m: Node<T>)
      requires n != m && n.next != n && n.next != m
      modifies n`next, Only(n.next)`prev, m`prev, m`next
      ensures n.next == m && m.prev == n && m.next == old(n.next) && n.prev == old(n.prev)
      ensures old(n.next) != null ==> old(n.next).prev == m && old(n.next).next == old(n.next.next)
    {
      var next := n.next;
      LinkNodes(n, m);
      LinkNodes(m, next);
    }

    /**
     * Links a new node right after the linked node `n`, node k of the chain
     * (AddToFullNode, unrolled_list.h:716-718, and 274-281 for the list's
     * last node): the chain gains `m` there.
     */
    method LinkAfter(ghost k: nat, n: Node<T>, m: Node<T>)
      requires Linked() && k < |Chain| && Chain[k] == n
      requires m.Valid() && m.K == K && m !in Repr && m.slots !in Repr
      modifies this`last, this`Chain, this`Repr, n`next, Only(n.next)`prev, m`prev, m`next
      ensures Linked() && size == old(size) && Repr == old(Repr) + {m, m.slots}
      ensures Chain == old(Chain)[..k + 1] + [m] + old(Chain)[k + 1..]
      ensures Blocks() == old(Blocks())[..k + 1] + [m.Contents] + old(Blocks())[k + 1..]
    {
      IndexOfAt(k);
      NodeFacts(n);
      var next := n.next;
      assert next != n && next != m by {
        if next != null {
          IndexOfAt(k + 1);
        }
      }
      Interpose(n, m);
      if next == null {
        last := m;
      }
      Chain, Repr := Chain[..k + 1] + [m] + Chain[k + 1..], Repr + {m, m.slots};
      Grown(Cut(k + 1, k + 1, [m]));
    }

    /** AddToNode on node k with room (unrolled_list.h:659-661): the node's insert, in place; size_ grows (288). */
    method AddInPlace(ghost k: nat, n: Node<T>, ind: int, v: T)
      requires Linked() && k < |Chain| && Chain[k] == n && 0 <= ind <= n.size < K
      modifies this`size, n`left, n`size, n`Contents, n.slots
      ensures Linked() && Chain == old(Chain) && Repr == old(Repr) && size == old(size) + 1
      ensures ind <= |old(Blocks())[k]| && Blocks() == old(Blocks())[k := Ins(old(Blocks())[k], ind, v)]
    {
      IndexOfAt(k);
      NodeFacts(n);
      n.Insert(v, ind);
      assert ind == 0 ==> Ins([], ind, v) == [v];
      size := size + 1;
      InPlace(k);
    }

    /**
     * The element moves of AddToFullNode (unrolled_list.h:675-707): when
     * ind <= K / 2 the last K - K / 2 elements of the full node `n` move to
     * the empty node `m` and `v` goes into `n`; otherwise only the last
     * K - K / 2 - 1 move and `v` goes into `m` at ind - (K / 2 + 1).
     */
    static method SplitFull(n: Node<T>, m: Node<T>, ind: int, v: T)
      requires n.Valid() && m.Valid() && n.K == m.K && n != m && n.slots != m.slots
      requires n.size == n.K && m.size == 0 && 0 <= ind <= n.K
      modifies n`left, n`size, n`Contents, n.slots, m`left, m`size, m`Contents, m.slots
      ensures n.Valid() && m.Valid() && [n.Contents, m.Contents] == AddToBlock(old(n.Contents), ind, v, n.K)
    {
      ghost var b := n.Contents;
      var leftSz, rightSz := n.K / 2, n.K - n.K / 2;
      var i := ind;
      var toLeft := ind <= leftSz;
      if !toLeft {
        if leftSz <= rightSz {
          leftSz, rightSz := leftSz + 1, rightSz - 1;
        }
        i := ind - leftSz;
      }
      MoveToRight(n, m, rightSz);
      assert n.Contents == b[..n.K - rightSz] && m.Contents == b[n.K - rightSz..];
      assert Ins([], 0, v) == [v];
      if toLeft {
        n.Insert(v, i);
        assert n.Contents == Ins(b[..n.K / 2], ind, v) && m.Contents == b[n.K / 2..];
      } else {
        m.Insert(v, i);
        assert n.Contents == b[..n.K / 2 + 1] && m.Contents == Ins(b[n.K / 2 + 1..], ind - (n.K / 2 + 1), v);
      }
    }

    /**
     * AddToFullNode (unrolled_list.h:666-740) with the new node's back link
     * pointing at the node itself: a fresh node takes the upper part of the
     * full node `n`, node k of the chain, and is linked after it, `v` going
     * to the half `ind` falls in; size_ grows (288).
     */
    method AddToFullNode(ghost k: nat, n: Node<T>, ind: int, v: T) returns (top: Node<T>)
      requires Linked() && k < |Chain| && Chain[k] == n && n.size == K && 0 <= ind <= K
      modifies this, n`left, n`size, n`Contents, n.slots, n`next, Only(n.next)`prev
      ensures Linked() && size == old(size) + 1 && fresh(top) && fresh(top.slots) && Repr == old(Repr) + {top, top.slots}
      ensures Chain == old(Chain)[..k + 1] + [top] + old(Chain)[k + 1..]
      ensures |old(Blocks())[k]| == K
      ensures Blocks() == old(Blocks())[..k] + AddToBlock(old(Blocks())[k], ind, v, K) + old(Blocks())[k + 1..]
    {
      ghost var bs := Blocks();
      IndexOfAt(k);
      NodeFacts(n);
      top := new Node(K);
      SplitFull(n, top, ind, v);
      ghost var halves := [n.Contents, top.Contents];
      size := size + 1;
      InPlace(k);
      LinkAfter(k, n, top);
      ReplaceThenInsert(bs, k, halves[0], halves[1]);
    }

    /**
     * AddToFullNode as written (unrolled_list.h:666-718) on a node `n`
     * outside the list: a fresh node takes the upper part of `n`, and the
     * old neighbours of `n`, `n`, the new node and the old successor are
     * linked in that order.
     */
    static method AddToFullNodeAsWritten(n: Node<T>, ind: int, v: T) returns (top: Node<T>)
      requires n.Valid() && n.size == n.K && 0 <= ind <= n.K
      requires n.prev != n && n.next != n
      modifies n, n.slots, Only(n.prev)`next, Only(n.next)`prev
      ensures fresh(top) && n.next == top && top.prev == n && top.next == old(n.next) && n.prev == old(n.prev)
      ensures [n.Contents, top.Contents] == AddToBlock(old(n.Contents), ind, v, n.K)
      ensures n.Valid()
    {
      var prev, next := n.prev, n.next;
      top := new Node(n.K);
      SplitFull(n, top, ind, v);
      LinkNodes(prev, n);
      LinkNodes(n, top);
      LinkNodes(top, next);
    }

    /**
     * insert on a full node as written (unrolled_list.h:262-275): the node
     * is split in a stack copy `tmp` by AddToFullNode, and std::swap then
     * moves the copy's contents and links back into `n`. The new node's
     * back link is left pointing at the copy, which no longer exists once
     * insert returns, instead of at `n`; the contents are split as in
     * AddToFullNode.
     */
    static method SplitInCopyAsWritten(n: Node<T>, ind: int, v: T) returns (top: Node<T>, tmp: Node<T>)
      requires n.Valid() && n.size == n.K && 0 <= ind <= n.K
      requires n.prev != n && n.next != n
      modifies n, n.slots, Only(n.prev)`next, Only(n.next)`prev
      ensures fresh(top) && fresh(tmp) && tmp != n
      ensures n.next == top && top.prev == tmp && top.prev != n
      ensures [n.Contents, top.Contents] == AddToBlock(old(n.Contents), ind, v, n.K)
    {
      var prev, next := n.prev, n.next;
      tmp := new Node.Copy(n);
      top := AddToFullNodeAsWritten(tmp, ind, v);
      var saved := new Node.Copy(n);
      n.Assign(tmp);
      tmp.Assign(saved);
      LinkNodes(prev, n);
      LinkNodes(top, next);
    }

    /**
     * AddToNode (unrolled_list.h:652-665) on node k of the list, with the
     * relinking insert does after it (271-281): the blocks become those
     * InsertBlocks gives.
     */
    method AddToNode(ghost k: nat, n: Node<T>, ind: int, v: T)
      requires Linked() && k < |Chain| && Chain[k] == n && 0 <= ind <= n.size
      modifies this, n`left, n`size, n`Contents, n.slots, n`next, Only(n.next)`prev
      ensures Linked() && size == old(size) + 1 && fresh(Repr - old(Repr)) && k < |Chain| && Chain[k] == n
      ensures |old(Blocks())[k]| <= K && ind <= |old(Blocks())[k]|
      ensures Blocks() == InsertBlocks(old(Blocks()), k, ind, v, K).blocks
    {
      ghost var bs := Blocks();
      IndexOfAt(k);
      NodeFacts(n);
      if n.size == K {
        var top := AddToFullNode(k, n, ind, v);
      } else {
        AddInPlace(k, n, ind, v);
        ReplaceIsSplice(bs, k, Ins(bs[k], ind, v));
      }
    }

    /**
     * The position translation closing insert (unrolled_list.h:282-287):
     * from node `n`, while `ind` is past the end of the current node, take
     * off its size and go to the next one. The position designated stays
     * the same; the loop ends inside the list. Nothing changes.
     */
    method Locate(ghost j0: nat, n: Node<T>, ind: int) returns (it: Iter<T>)
      requires Linked() && j0 < |Chain| && Chain[j0] == n && 0 <= ind
      requires Offset(Blocks(), j0) + ind < |Flatten(Blocks())|
      ensures it.node != null && it.node in Chain && 0 <= it.ind < |Blocks()[IndexOf(it.node)]|
      ensures Offset(Blocks(), IndexOf(it.node)) + it.ind == Offset(Blocks(), j0) + ind
    {
      var cur, i := n, ind;
      ghost var j := j0;
      IndexOfAt(j);
      NodeFacts(cur);
      while i >= cur.size
        invariant j < |Chain| && cur == Chain[j] && 0 <= i
        invariant Offset(Blocks(), j) + i == Offset(Blocks(), j0) + ind
        invariant cur.size == |Blocks()[j]|
        decreases |Chain| - j
      {
        OffsetStep(Blocks(), j);
        assert j + 1 < |Chain| by {
          OffsetAll(Blocks());
        }
        assert LinkAt(Chain, j);
        i := i - cur.size;
        cur := cur.next;
        j := j + 1;
        NodeFacts(cur);
        IndexOfAt(j);
      }
      IndexOfAt(j);
      it := Iter(cur, i);
    }

    /**
     * insert at a null position of an empty list (unrolled_list.h:254-256
     * and 268-290): the list's first node is made, holding `v`.
     */
    method InsertIntoEmpty(v: T) returns (it: Iter<T>)
      requires Valid() && Chain == []
      modifies this
      ensures Valid() && fresh(Repr - old(Repr))
      ensures var p := InsertBlocks([[]], 0, 0, v, K);
        Blocks() == p.blocks && IsIter(it) && CursorOf(it) == p.at
    {
      GrowBack(v);
      IndexOfAt(0);
      NodeFacts(first);
      it := Iter(first, 0);
      assert Ins([], 0, v) == [v];
      Conclude([[v]]);
    }

    /** AddToNode on node k of a valid list: the list stays valid, with the blocks InsertBlocks gives. */
    method AddToListNode(ghost k: nat, node: Node<T>, ind: int, v: T)
      requires Valid() && k < |Chain| && Chain[k] == node && 0 <= ind && IsCursor(Blocks(), At(k, ind))
      modifies this, Repr
      ensures Valid() && fresh(Repr - old(Repr)) && k < |Chain| && Chain[k] == node
      ensures Blocks() == InsertBlocks(old(Blocks()), k, ind, v, K).blocks
    {
      ghost var bs := Blocks();
      NodeFacts(node);
      IndexOfAt(k);
      InsertBlocksSpec(bs, k, ind, v, K);
      AddToNode(k, node, ind, v);
      Conclude(InsertBlocks(bs, k, ind, v, K).blocks);
    }

    /**
     * insert at node k of the list, index ind (unrolled_list.h:262-290),
     * with the split node's back link corrected.
     */
    method InsertAt(ghost k: nat, node: Node<T>, ind: int, v: T) returns (it: Iter<T>)
      requires Valid() && k < |Chain| && Chain[k] == node && 0 <= ind && IsCursor(Blocks(), At(k, ind))
      modifies this, Repr
      ensures Valid() && fresh(Repr - old(Repr))
      ensures var p := InsertBlocks(old(Blocks()), k, ind, v, K);
        Blocks() == p.blocks && IsIter(it) && CursorOf(it) == p.at
    {
      ghost var p := InsertBlocks(Blocks(), k, ind, v, K);
      InsertBlocksSpec(Blocks(), k, ind, v, K);
      AddToListNode(k, node, ind, v);
      it := Locate(k, node, ind);
      PosInjective(Blocks(), CursorOf(it), p.at, K);
    }

    /**
     * insert (unrolled_list.h:250-290) with the split node's back link
     * corrected: `v` goes to the position pos designates and the iterator
     * returned designates it. A null pos makes the first node of an empty
     * list, and is a runtime_error in a non-empty one, before any change.
     */
    method Insert(pos: Iter<T>, v: T) returns (r: Inserted<T>)
      requires Valid()
      requires pos.node == null ==> pos.ind == 0
      requires pos.node != null ==> IsIter(pos)
      modifies this, Repr
      ensures r.BadIterator? <==> pos.node == null && old(Chain) != []
      ensures r.BadIterator? ==> unchanged(this) && unchanged(Repr)
      ensures Valid() && fresh(Repr - old(Repr))
      ensures r.Inserted? ==>
        var p := if pos.node == null then InsertBlocks([[]], 0, 0, v, K)
                 else InsertBlocks(old(Blocks()), old(IndexOf(pos.node)), pos.ind, v, K);
        Blocks() == p.blocks && IsIter(r.it) && CursorOf(r.it) == p.at
    {
      var node := pos.node;
      if node == null {
        if size != 0 || first != null {
          return BadIterator;
        }
        var it := InsertIntoEmpty(v);
        return Inserted(it);
      }
      var it := InsertAt(IndexOf(node), node, pos.ind, v);
      r := Inserted(it);
    }
  
    // ------------------------------------------------------------- erase

    /** The element array of a node, if any. */
    static function SlotsOf(n: Node?<T>): set<object>
    {
      if n == null then {} else {n.slots}
    }

    /**
     * MergeNodes (unrolled_list.h:860-882): with a null side the other node
     * is the filled one. Otherwise all the elements of the smaller node
     * move into the larger one (into the left one on a tie), until it is
     * full (max_len is K); the two nodes' concatenated contents stay the
     * same, and when they fit in one node the reduced node ends empty.
     */
    static method MergeNodes(l: Node?<T>, r: Node?<T>) returns (filled: Node?<T>, reduced: Node?<T>)
      requires l != null ==> l.Valid()
      requires r != null ==> r.Valid()
      requires l != null && r != null ==> l.K == r.K && l != r && l.slots != r.slots
      modifies Only(l)`left, Only(l)`size, Only(l)`Contents, Only(r)`left, Only(r)`size, Only(r)`Contents
      modifies SlotsOf(l), SlotsOf(r)
      ensures l == null ==> filled == r && reduced == null
      ensures l != null && r == null ==> filled == l && reduced == null
      ensures l != null && r != null ==>
        (if old(l.size) < old(r.size) then filled == r && reduced == l else filled == l && reduced == r)
        && l.Valid() && r.Valid() && l.Contents + r.Contents == old(l.Contents) + old(r.Contents)
        && (old(l.size) + old(r.size) <= l.K <==> reduced.Contents == [])
      ensures l != null && r != null ==>
        |filled.Contents| == if old(l.size) + old(r.size) <= l.K then old(l.size) + old(r.size) else l.K
    {
      if l == null {
        return r, l;
      }
      if r == null {
        return l, r;
      }
      CanBeMergedIffTotalTransfer(l.size, r.size, l.K);
      if l.size < r.size {
        filled, reduced := r, l;
        MoveToRight(l, r, l.K);
      } else {
        filled, reduced := l, r;
        MoveToLeft(l, r, l.K);
      }
    }

    /**
     * FillLeftToRequired (unrolled_list.h:577-588): when CanBeFilled, moves
     * elements from the front of `right` to the back of `left` until `left`
     * holds RequiredNodeSize (K - K / 2) of them, and returns how many moved;
     * otherwise moves nothing and returns 0. The source takes right.front()
     * without a check, so it needs `right` to hold enough elements.
     */
    static method FillLeftToRequired(l: Node<T>, r: Node<T>) returns (added: nat)
      requires l.Valid() && r.Valid() && l.K == r.K && l != r && l.slots != r.slots
      requires CanBeFilled(l.size, r.size, l.K) ==> l.K - l.K / 2 <= l.size + r.size
      modifies l`left, l`size, l`Contents, l.slots, r`left, r`size, r`Contents, r.slots
      ensures l.Valid() && r.Valid()
      ensures added == if CanBeFilled(old(l.size), old(r.size), l.K) && old(l.size) < l.K - l.K / 2
        then l.K - l.K / 2 - old(l.size) else 0
      ensures l.Contents == old(l.Contents) + old(r.Contents)[..added] && r.Contents == old(r.Contents)[added..]
      ensures CanBeFilled(old(l.size), old(r.size), l.K) ==> l.K - l.K / 2 <= l.size
    {
      ghost var l0, r0 := l.Contents, r.Contents;
      added := 0;
      if !CanBeFilled(l.size, r.size, l.K) {
        return;
      }
      while l.size < l.K - l.K / 2
        invariant l.Valid() && r.Valid()
        invariant added <= |r0| && l.Contents == l0 + r0[..added] && r.Contents == r0[added..]
        invariant |l0| < l.K - l.K / 2 ==> added <= l.K - l.K / 2 - |l0|
        invariant |l0| >= l.K - l.K / 2 ==> added == 0
        decreases l.K - l.size
      {
        var x := r.Front();
        var _ := l.PushBack(x);
        r.PopFront();
        assert r0[..added] + [r0[added]] == r0[..added + 1];
        added := added + 1;
      }
    }

    /**
     * FillRightToRequired (unrolled_list.h:589-600): when CanBeFilled, moves
     * elements from the back of `left` to the front of `right` until `right`
     * holds RequiredNodeSize of them, and returns how many moved; otherwise
     * moves nothing and returns 0. The source takes left.back() without a
     * check, so it needs `left` to hold enough elements.
     */
    static method FillRightToRequired(l: Node<T>, r: Node<T>) returns (added: nat)
      requires l.Valid() && r.Valid() && l.K == r.K && l != r && l.slots != r.slots
      requires CanBeFilled(l.size, r.size, l.K) ==> l.K - l.K / 2 <= l.size + r.size
      modifies l`left, l`size, l`Contents, l.slots, r`left, r`size, r`Contents, r.slots
      ensures l.Valid() && r.Valid()
      ensures added == if CanBeFilled(old(l.size), old(r.size), l.K) && old(r.size) < l.K - l.K / 2
        then l.K - l.K / 2 - old(r.size) else 0
      ensures added <= old(l.size)
      ensures l.Contents == old(l.Contents)[..old(l.size) - added]
        && r.Contents == old(l.Contents)[old(l.size) - added..] + old(r.Contents)
      ensures CanBeFilled(old(l.size), old(r.size), l.K) ==> l.K - l.K / 2 <= r.size
    {
      ghost var l0, r0 := l.Contents, r.Contents;
      added := 0;
      if !CanBeFilled(l.size, r.size, l.K) {
        return;
      }
      while r.size < l.K - l.K / 2
        invariant l.Valid() && r.Valid()
        invariant added <= |l0| && l.Contents == l0[..|l0| - added] && r.Contents == l0[|l0| - added..] + r0
        invariant |r0| < l.K - l.K / 2 ==> added <= l.K - l.K / 2 - |r0|
        invariant |r0| >= l.K - l.K / 2 ==> added == 0
        decreases l.K - r.size
      {
        var x := l.Back();
        var _ := r.PushFront(x);
        l.PopBack();
        ShiftLastAcross(l0, r0, |l0| - added);
        added := added + 1;
      }
    }

    /** The node's erase at ind (unrolled_list.h:367-368) on node k, with size_ going down by one. */
    method RemoveFromNode(ghost k: nat, n: Node<T>, ind: int)
      requires Linked() && k < |Chain| && Chain[k] == n && 0 <= ind < n.size
      modifies this`size, n`left, n`size, n`Contents, n.slots
      ensures Linked() && Chain == old(Chain) && Repr == old(Repr) && size == old(size) - 1
      ensures ind < |old(Blocks())[k]| && Blocks() == old(Blocks())[k := Remove(old(Blocks())[k], ind)]
    {
      IndexOfAt(k);
      NodeFacts(n);
      n.Erase(ind);
      size := size - 1;
      InPlace(k);
    }

    /**
     * Merging nodes k and k + 1 when their elements fit in one node
     * (unrolled_list.h:386-388, 391-393): MergeNodes, then EraseNode on the
     * node it emptied. The merged node is node k of the shorter chain.
     */
    method MergePair(ghost k: nat, l: Node<T>, r: Node<T>) returns (filled: Node<T>)
      requires Linked() && k + 1 < |Chain| && Chain[k] == l && Chain[k + 1] == r
      requires |Blocks()[k]| + |Blocks()[k + 1]| <= K
      modifies this, Repr
      ensures Linked() && Repr <= old(Repr) && size == old(size)
      ensures |old(Blocks())| == |Blocks()| + 1 && k < |Chain| && Chain[k] == filled
      ensures Blocks() == old(Blocks())[..k] + [old(Blocks())[k] + old(Blocks())[k + 1]] + old(Blocks())[k + 2..]
    {
      ghost var bs := Blocks();
      IndexOfAt(k);
      NodeFacts(l);
      IndexOfAt(k + 1);
      NodeFacts(r);
      Unaliased(Chain, k, k + 1);
      var f, red := MergeNodes(l, r);
      PairInPlace(k);
      ghost var j := if red == l then k else k + 1;
      MergedPair(bs, k, l.Contents, r.Contents, j);
      IndexOfAt(j);
      EraseNode(red);
      filled := f;
    }

    /**
     * The rebalancing of erase (unrolled_list.h:383-400) on node k, which
     * still holds elements after removing the one at `ind` from the blocks
     * `bs`: a node below RequiredNodeSize merges with its previous node if
     * the two fit in one node, else with its next node if those fit. The
     * refill branches (395-399) are never reached: their condition implies
     * the merge condition tried before them (CanBeFilledImpliesCanBeMerged).
     */
    method Rebalance(ghost bs: seq<seq<T>>, ghost k: nat, node: Node<T>, ind: int) returns (n1: Node<T>, i1: int)
      requires Linked() && k < |bs| && 0 <= ind < |bs[k]| && |Chain| == |bs| && Chain[k] == node
      requires Remove(bs[k], ind) != [] && Blocks() == bs[k := Remove(bs[k], ind)]
      modifies this, Repr
      ensures Linked() && Repr <= old(Repr) && size == old(size)
      ensures var u := EraseUnsettled(bs, k, ind, K);
        u.Kept? && Blocks() == u.blocks && i1 == u.ind && u.k < |Chain| && Chain[u.k] == n1
    {
      ghost var b := Remove(bs[k], ind);
      IndexOfAt(k);
      NodeFacts(node);
      var prev, next := node.prev, node.next;
      if prev != null {
        IndexOfAt(k - 1);
        NodeFacts(prev);
      }
      if next != null {
        IndexOfAt(k + 1);
        NodeFacts(next);
      }
      ghost var u := EraseUnsettled(bs, k, ind, K);
      n1, i1 := node, ind;
      if NeedToFill(node.size, K) {
        if prev != null && CanBeMerged(prev, node) {
          i1 := ind + prev.size;
          n1 := MergePair(k - 1, prev, node);
          assert bs[k := b][..k - 1] == bs[..k - 1] && bs[k := b][k + 1..] == bs[k + 1..];
          assert u == Kept(bs[..k - 1] + [bs[k - 1] + b] + bs[k + 1..], k - 1, ind + |bs[k - 1]|);
        } else if next != null && CanBeMerged(node, next) {
          n1 := MergePair(k, node, next);
          assert bs[k := b][..k] == bs[..k] && bs[k := b][k + 2..] == bs[k + 2..];
          assert u == Kept(bs[..k] + [b + bs[k + 1]] + bs[k + 2..], k, ind);
        } else if prev != null && CanBeFilled(prev.size, node.size, K) {
          assert false;
        } else if next != null && CanBeFilled(node.size, next.size, K) {
          assert false;
        } else {
          assert u == Kept(bs[k := b], k, ind);
        }
      } else {
        assert u == Kept(bs[k := b], k, ind);
      }
    }

    /**
     * erase once the erased element's node emptied (unrolled_list.h:371-381):
     * the node is unlinked and the iterator is begin() if it was the first
     * node, end() if it was the last, else the next node at index 0. The
     * source reads the erased node's links after EraseNode freed it; here
     * they are read before.
     */
    method EraseEmptied(ghost bs: seq<seq<T>>, ghost k: nat, node: Node<T>, ind: int) returns (r: Iter<T>)
      requires Linked() && Shaped(bs, K) && k < |bs| == |Chain| && Chain[k] == node && 0 <= ind < |bs[k]|
      requires Remove(bs[k], ind) == [] && Blocks() == bs[k := []] && size == |Flatten(bs)| - 1
      modifies this, Repr
      ensures Valid() && Repr <= old(Repr) && (r.node != null ==> r.node in Chain && 0 <= r.ind)
      ensures var e := EraseBlocks(bs, k, ind, K);
        Blocks() == e.blocks && CursorOf(r) == e.at
    {
      EraseEmptiedIs(bs, k, ind, K);
      ghost var rest := RemoveBlock(bs, k);
      IndexOfAt(k);
      NodeFacts(node);
      var prev, next := node.prev, node.next;
      EraseNode(node);
      assert RemoveBlock(bs[k := []], k) == rest;
      Conclude(rest);
      if prev == null {
        r := Begin();
      } else if next == null {
        r := End();
      } else {
        IndexOfAt(k);
        r := Iter(next, 0);
      }
    }

    /**
     * erase once the erased element's node kept elements (unrolled_list.h:
     * 383-406): Rebalance, then an iterator past the end of its node moves
     * to the next node's index 0; at the end of the last node it stays
     * end().
     */
    method EraseKept(ghost bs: seq<seq<T>>, ghost k: nat, node: Node<T>, ind: int) returns (r: Iter<T>)
      requires Linked() && Shaped(bs, K) && k < |bs| == |Chain| && Chain[k] == node && 0 <= ind < |bs[k]|
      requires Remove(bs[k], ind) != [] && Blocks() == bs[k := Remove(bs[k], ind)] && size == |Flatten(bs)| - 1
      modifies this, Repr
      ensures Valid() && Repr <= old(Repr) && (r.node != null ==> r.node in Chain && 0 <= r.ind)
      ensures var e := EraseBlocks(bs, k, ind, K);
        Blocks() == e.blocks && CursorOf(r) == e.at
    {
      EraseBlocksSpec(bs, k, ind, K);
      ghost var u := EraseUnsettled(bs, k, ind, K);
      var n1, i1 := Rebalance(bs, k, node, ind);
      Conclude(u.blocks);
      IndexOfAt(u.k);
      NodeFacts(n1);
      if i1 == n1.size && n1.next != null {
        IndexOfAt(u.k + 1);
        r := Iter(n1.next, 0);
      } else {
        r := Iter(n1, i1);
      }
    }

    /**
     * erase at index `ind` of node k (unrolled_list.h:367-406), the
     * iterator returned corrected to end() where the source gives a null
     * node: the blocks and the iterator become those EraseBlocks gives.
     */
    method EraseIn(ghost k: nat, node: Node<T>, ind: int) returns (r: Iter<T>)
      requires Valid() && k < |Chain| && Chain[k] == node && 0 <= ind < |Blocks()[k]|
      modifies this, Repr
      ensures Valid() && Repr <= old(Repr) && (r.node != null ==> r.node in Chain && 0 <= r.ind)
      ensures var e := EraseBlocks(old(Blocks()), k, ind, K);
        Blocks() == e.blocks && CursorOf(r) == e.at
    {
      ghost var bs := Blocks();
      IndexOfAt(k);
      NodeFacts(node);
      RemoveFromNode(k, node, ind);
      NodeFacts(node);
      if node.size == 0 {
        r := EraseEmptied(bs, k, node, ind);
      } else {
        r := EraseKept(bs, k, node, ind);
      }
    }

    /**
     * erase (unrolled_list.h:361-407) with the iterator returned corrected
     * to end() where the source gives a null node. A null iterator, or one
     * past its node's elements, is returned unchanged and nothing changes
     * (ValidateIteratorInErase, 436-443).
     */
    method Erase(pos: Iter<T>) returns (r: Iter<T>)
      requires Valid() && (pos.node != null ==> pos.node in Chain && 0 <= pos.ind)
      modifies this, Repr
      ensures Valid() && Repr <= old(Repr) && (r.node != null ==> r.node in Chain && 0 <= r.ind)
      ensures var e := EraseAt(old(Blocks()), old(CursorOf(pos)), K, Corrected);
        Blocks() == e.blocks && CursorOf(r) == e.at
    {
      var node, ind := pos.node, pos.ind;
      if node == null {
        return pos;
      }
      NodeFacts(node);
      if ind >= node.size {
        return pos;
      }
      r := EraseIn(IndexOf(node), node, ind);
    }

    // ------------------------------------------------------- range erase

    /**
     * GetDeleteNodeRange (unrolled_list.h:621-635): the nodes [r.0, r.1)
     * that range erase unlinks whole. Both ends are last's node when first
     * and last share a node; otherwise the range starts at first's node if
     * first is at index 0, else at the node after it.
     */
    function DeleteNodeRange(first: Iter<T>, last: Iter<T>): (r: (Node?<T>, Node?<T>))
      reads this, Repr
      requires Linked() && first.node != null && last.node != null && first.node in Chain && last.node in Chain
      requires IndexOf(first.node) <= IndexOf(last.node)
      ensures var kf, kl := IndexOf(first.node), IndexOf(last.node);
        r.1 == last.node && r.0 == Chain[if kf == kl || first.ind == 0 then kf else kf + 1]
    {
      NodeFacts(first.node);
      if first.node == last.node then (first.node, last.node)
      else if first.ind != 0 then NextIndex(first.node); (first.node.next, last.node)
      else (first.node, last.node)
    }

    /**
     * One step of EraseCompletlyCoveredNodes (unrolled_list.h:615-617):
     * node `k`, which has a successor, is taken out by EraseNode, and its
     * successor is returned.
     */
    method EraseChainNode(ghost k: nat, cur: Node<T>) returns (next: Node<T>)
      requires Valid() && k + 1 < |Chain| && Chain[k] == cur
      modifies this, Repr
      ensures Valid() && Repr <= old(Repr) && next == old(Chain)[k + 1]
      ensures Chain == old(Chain)[..k] + old(Chain)[k + 1..]
      ensures Blocks() == old(Blocks())[..k] + old(Blocks())[k + 1..]
    {
      IndexOfAt(k);
      NodeFacts(cur);
      next := cur.next;
      ghost var cs := Blocks();
      RemoveBlockSpec(cs, k, K);
      EraseNode(cur);
    }

    /**
     * One turn of the loop of EraseCompletlyCoveredNodes: with nodes
     * start .. start + m - 1 of the original chain `os` gone, node
     * start + m goes too; the node returned is `to` exactly when it is node
     * `stop` of `os`.
     */
    method EraseCoveredNode(ghost os: seq<Node<T>>, ghost bs: seq<seq<T>>, ghost start: nat, ghost m: nat,
                            ghost stop: nat, cur: Node<T>, to: Node<T>)
      returns (next: Node<T>)
      requires Valid() && start + m < stop < |os| == |bs| && Distinct(os) && cur == os[start + m] && to == os[stop]
      requires Chain == Drop(os, start, m) && Blocks() == Drop(bs, start, m)
      modifies this, Repr
      ensures Valid() && Repr <= old(Repr)
      ensures Chain == Drop(os, start, m + 1) && Blocks() == Drop(bs, start, m + 1)
      ensures next == os[start + (m + 1)] && (next == to <==> start + (m + 1) == stop)
    {
      DropAt(os, start, m);
      DropAt(bs, start, m);
      Unaliased(os, start + (m + 1), stop);
      next := EraseChainNode(start, cur);
    }

    /**
     * The loop of EraseCompletlyCoveredNodes (unrolled_list.h:614-618),
     * written as tail recursion: with nodes start .. start + m - 1 of the
     * original chain `os` already gone and `next` at node start + m, EraseNode
     * each node until `to`, node `stop`, is reached.
     */
    method EraseNodesFrom(ghost os: seq<Node<T>>, ghost bs: seq<seq<T>>, ghost start: nat, ghost m: nat,
                          ghost stop: nat, next: Node<T>, to: Node<T>)
      requires Valid() && start + m <= stop < |os| == |bs| && Distinct(os) && next == os[start + m] && to == os[stop]
      requires Chain == Drop(os, start, m) && Blocks() == Drop(bs, start, m)
      modifies this, Repr
      ensures Valid() && Repr <= old(Repr)
      ensures Chain == os[..start] + os[stop..] && Blocks() == bs[..start] + bs[stop..]
      decreases stop - start - m
    {
      if next != to {
        Unaliased(os, start + m, stop);
        var after := EraseCoveredNode(os, bs, start, m, stop, next, to);
        EraseNodesFrom(os, bs, start, m + 1, stop, after, to);
      } else {
        Unaliased(os, start + m, stop);
        DropIsCut(os, start, m);
        DropIsCut(bs, start, m);
      }
    }

    /** From node `start` of the chain, EraseNode each node up to, and not including, node `stop`. */
    method EraseNodesBetween(ghost start: nat, ghost stop: nat, from: Node<T>, to: Node<T>)
      requires Valid() && start <= stop < |Chain| && Chain[start] == from && Chain[stop] == to
      modifies this, Repr
      ensures Valid() && Repr <= old(Repr)
      ensures Chain == old(Chain)[..start] + old(Chain)[stop..] && Blocks() == old(Blocks())[..start] + old(Blocks())[stop..]
    {
      ghost var os, bs := Chain, Blocks();
      assert |bs| == |os|;
      EraseNodesFrom(os, bs, start, 0, stop, from, to);
    }

    /**
     * EraseCompletlyCoveredNodes (unrolled_list.h:607-619): EraseNode on
     * each node of DeleteNodeRange, walking the next pointers. The list
     * stays valid; its blocks and the iterator range erase goes on from
     * are those RemoveCovered gives.
     */
    method EraseCoveredNodes(first: Iter<T>, last: Iter<T>)
      requires Valid() && first.node != null && last.node != null && first.node in Chain && last.node in Chain
      requires 0 <= first.ind && 0 <= last.ind && IndexOf(first.node) <= IndexOf(last.node)
      modifies this, Repr
      ensures Valid() && Repr <= old(Repr) && last.node in Chain && (first.ind != 0 ==> first.node in Chain)
      ensures var c := RemoveCovered(old(Blocks()), old(CursorOf(first)), old(CursorOf(last)));
        Blocks() == c.blocks && c.at == (if first.ind == 0 then CursorOf(Iter(last.node, 0)) else CursorOf(first))
    {
      ghost var os, bs := Chain, Blocks();
      ghost var kf, kl := IndexOf(first.node), IndexOf(last.node);
      ghost var start := if kf == kl || first.ind == 0 then kf else kf + 1;
      var range := DeleteNodeRange(first, last);
      EraseNodesBetween(start, kl, range.0, range.1);
      assert Chain[start] == last.node;
      IndexOfAt(start);
      if first.ind != 0 {
        assert Chain[kf] == first.node;
        IndexOfAt(kf);
      }
    }

    /**
     * The loop closing range erase (unrolled_list.h:428-432): erase,
     * `count` times, each time on the iterator the previous call returned.
     */
    method EraseRepeatedly(it: Iter<T>, count: int) returns (r: Iter<T>)
      requires Valid() && 0 <= count && (it.node != null ==> it.node in Chain && 0 <= it.ind)
      modifies this, Repr
      ensures Valid() && Repr <= old(Repr) && (r.node != null ==> r.node in Chain && 0 <= r.ind)
      ensures var e := EraseRepeat(old(Blocks()), old(CursorOf(it)), count, K, Corrected);
        Blocks() == e.blocks && CursorOf(r) == e.at
    {
      ghost var bs, c := Blocks(), CursorOf(it);
      r := it;
      var i := 0;
      while i < count
        invariant 0 <= i <= count && Valid() && Repr <= old(Repr)
        invariant r.node != null ==> r.node in Chain && 0 <= r.ind
        invariant EraseRepeat(bs, c, i, K, Corrected) == Placed(Blocks(), CursorOf(r))
      {
        r := Erase(r);
        i := i + 1;
      }
    }

    /**
     * erase(first, last) (unrolled_list.h:408-435) with the count
     * corrected for first and last in one node: the wholly covered nodes
     * are unlinked, then erase is called once per remaining element, each
     * time on the iterator the previous call returned. The blocks and the
     * iterator returned are those EraseRangeBlocks gives.
     */
    method EraseRange(first: Iter<T>, last: Iter<T>) returns (r: Iter<T>)
      requires Valid() && IsIter(first) && IsIter(last)
      requires Pos(Blocks(), CursorOf(first)) <= Pos(Blocks(), CursorOf(last))
      modifies this, Repr
      ensures Valid() && Repr <= old(Repr) && (r.node != null ==> r.node in Chain && 0 <= r.ind)
      ensures var e := EraseRangeBlocks(old(Blocks()), old(CursorOf(first)), old(CursorOf(last)), K);
        Blocks() == e.blocks && CursorOf(r) == e.at
    {
      ghost var bs, cf, cl := Blocks(), CursorOf(first), CursorOf(last);
      if first == last {
        return last;
      }
      if first.node != null && last.node != null {
        IndexOfAt(IndexOf(first.node));
        IndexOfAt(IndexOf(last.node));
      }
      assert cf != cl;
      RangeOrder(bs, cf, cl, K);
      var firstNode, lastNode := first.node, last.node;
      NodeFacts(firstNode);
      var firstSz := firstNode.size;
      ghost var c := RemoveCovered(bs, cf, cl);
      EraseCoveredNodes(first, last);
      var count := firstSz - first.ind + last.ind;
      if first.ind == 0 {
        count := last.ind;
      }
      if firstNode == lastNode {
        count := last.ind - first.ind;
      }
      assert count == RangeCount(bs, cf, cl) && 0 <= count;
      var it := if first.ind == 0 then Iter(lastNode, 0) else first;
      r := EraseRepeatedly(it, count);
    }

    // ----------------------------------------------------- whole list

    /**
     * clear (unrolled_list.h:444-454): walks the next pointers, destroying
     * each node's elements (DeleteNode), then forgets the nodes. Every old
     * node's storage ends up vacant and the list empty.
     */
    method Clear()
      requires Valid()
      modifies this, Repr
      ensures Valid() && Blocks() == [] && size == 0 && Repr == {}
      ensures forall n :: n in old(Chain) ==> n.left < n.slots.Length && View(n.slots[..], n.left) == Layout([], K)
    {
      ghost var os := Chain;
      var cur := first;
      ghost var i := 0;
      while cur != null
        invariant 0 <= i <= |os| && Distinct(os) && ChainLinks(os)
        invariant forall j :: 0 <= j < |os| ==> os[j] in old(Repr) && os[j].slots in old(Repr) && os[j].K == K
        invariant cur == if i < |os| then os[i] else null
        invariant ChainValid(os[i..])
        invariant forall j :: 0 <= j < i ==> os[j].left < os[j].slots.Length && View(os[j].slots[..], os[j].left) == Layout([], K)
        decreases |os| - i
      {
        assert LinkAt(os, i) && os[i..][0] == os[i];
        var next := cur.next;
        StorageApart(os, i);
        cur.Destroy();
        cur := next;
        i := i + 1;
      }
      first, last := null, null;
      size := 0;
      Chain, Repr := [], {};
    }

    /** The list's invariant as a property of the field values alone. */
    static ghost predicate Holds(first: Node?<T>, last: Node?<T>, size: int, chain: seq<Node<T>>, repr: set<object>, K: nat)
      reads repr
    {
      ChainShape(chain, first, last, repr, K) && ChainLinks(chain) && ChainValid(chain)
      && Shaped(BlocksOf(chain), K) && size == |Flatten(BlocksOf(chain))|
    }

    /** A list's invariant depends on its nodes only: it survives any change outside them. */
    twostate lemma {:induction false} HoldsKept(p: Fields<T>)
      requires old(Holds(p.first, p.last, p.size, p.chain, p.repr, K)) && unchanged(p.repr)
      ensures Holds(p.first, p.last, p.size, p.chain, p.repr, K) && BlocksOf(p.chain) == old(BlocksOf(p.chain))
    {
    }

    lemma {:induction false} ValidIsHolds()
      ensures Valid() <==> this !in Repr && Holds(first, last, size, Chain, Repr, K)
    {
    }

    /**
     * swap (unrolled_list.h:227-233): exchanges size_, last_node_ and
     * first_node_ with `other` (the allocators are not modelled). Both
     * lists have the same node capacity, as both have the same type.
     */
    method Swap(other: UnrolledList<T>)
      requires Valid() && other.Valid() && other.K == K && this !in other.Repr && other !in Repr
      modifies this, other
      ensures Valid() && other.Valid()
      ensures Blocks() == old(other.Blocks()) && other.Blocks() == old(Blocks())
      ensures Repr == old(other.Repr) && other.Repr == old(Repr)
    {
      ValidIsHolds();
      other.ValidIsHolds();
      ghost var mine := Fields(first, last, size, Chain, Repr);
      ghost var theirs := Fields(other.first, other.last, other.size, other.Chain, other.Repr);
      ExchangeFields(other);
      HoldsKept(mine);
      HoldsKept(theirs);
      ValidIsHolds();
      other.ValidIsHolds();
    }

    /** The exchange of the fields swap does, field by field (`other` may be this list). */
    method ExchangeFields(other: UnrolledList<T>)
      modifies this, other
      ensures Fields(first, last, size, Chain, Repr)
        == old(Fields(other.first, other.last, other.size, other.Chain, other.Repr))
      ensures Fields(other.first, other.last, other.size, other.Chain, other.Repr)
        == old(Fields(first, last, size, Chain, Repr))
    {
      var s := size;
      size := other.size;
      other.size := s;
      var l := last;
      last := other.last;
      other.last := l;
      var f := first;
      first := other.first;
      other.first := f;
      ghost var c, r := Chain, Repr;
      Chain, Repr := other.Chain, other.Repr;
      other.Chain, other.Repr := c, r;
    }

    /**
     * The constructor from a range (unrolled_list.h:198-210): push_back of
     * each value in order; the list holds exactly those values.
     */
    constructor FromSeq(k: nat, s: seq<T>)
      requires 0 < k
      ensures Valid() && K == k && Blocks() == Build(s, K) && Flatten(Blocks()) == s && fresh(Repr)
    {
      K := k;
      first, last := null, null;
      size := 0;
      Chain, Repr := [], {};
      new;
      var i := 0;
      while i < |s|
        invariant 0 <= i <= |s| && Valid() && Blocks() == Build(s[..i], K) && fresh(Repr)
      {
        PushBack(s[i]);
        assert s[..i + 1][..i] == s[..i];
        i := i + 1;
      }
      assert s[..|s|] == s;
      BuildSpec(s, K);
    }

    /**
     * The constructor of n copies of t (unrolled_list.h:191-197): n
     * push_backs of t.
     */
    constructor Filled(k: nat, n: nat, t: T)
      requires 0 < k
      ensures Valid() && K == k && Blocks() == Build(seq(n, _ => t), K) && Flatten(Blocks()) == seq(n, _ => t)
      ensures fresh(Repr)
    {
      K := k;
      first, last := null, null;
      size := 0;
      Chain, Repr := [], {};
      new;
      ghost var s := seq(n, _ => t);
      var i := 0;
      while i < n
        invariant 0 <= i <= n && Valid() && Blocks() == Build(s[..i], K) && fresh(Repr)
      {
        PushBack(t);
        assert s[..i + 1] == s[..i] + [t];
        i := i + 1;
      }
      assert s[..n] == s;
      BuildSpec(s, K);
    }

    /**
     * assign (unrolled_list.h:455-459): builds a new list of the values,
     * swaps with it, and the new list's destructor (clear) destroys the
     * old nodes.
     */
    method Assign(s: seq<T>)
      requires Valid()
      modifies this, Repr
      ensures Valid() && Blocks() == Build(s, K) && Flatten(Blocks()) == s && fresh(Repr)
    {
      var newList := new UnrolledList.FromSeq(K, s);
      Swap(newList);
      DestroyOther(newList);
    }

    /**
     * The destructor (unrolled_list.h:217-219, clear) run on another list
     * whose nodes are not this list's: this list does not change.
     */
    method DestroyOther(other: UnrolledList<T>)
      requires Valid() && other.Valid() && other != this && this !in other.Repr && other !in Repr && Repr !! other.Repr
      modifies other, other.Repr
      ensures Valid() && Blocks() == old(Blocks()) && Repr == old(Repr)
      ensures other.Valid() && other.Blocks() == [] && other.Repr == {}
    {
      ValidIsHolds();
      ghost var mine := Fields(first, last, size, Chain, Repr);
      other.Clear();
      HoldsKept(mine);
      ValidIsHolds();
    }
}
}
