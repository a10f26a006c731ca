/**
 * The node chain of the unrolled list (lib/unrolled_list.h) in the heap:
 * what it means for a sequence of nodes to be linked in order, and how a
 * chain changes when some of its nodes are replaced by others (a node
 * split off, merged away or unlinked) while the rest stay as they were.
 */
module ChainHeap {
  import opened NodeBuffer

  /** The nodes a possibly null pointer designates, for frames. */
  function Only<T>(n: Node?<T>): set<Node<T>>
  {
    if n == null then {} else {n}
  }

  /** The contents of a sequence of nodes, in order. */
  ghost function BlocksOf<T>(ns: seq<Node<T>>): (bs: seq<seq<T>>)
    reads ns
    ensures |bs| == |ns| && forall i :: 0 <= i < |ns| ==> bs[i] == ns[i].Contents
  {
    if ns == [] then [] else BlocksOf(ns[..|ns| - 1]) + [ns[|ns| - 1].Contents]
  }

  /** Nodes i and j of `ns` are different objects with different storage. */
  ghost predicate Apart<T>(ns: seq<Node<T>>, i: nat, j: nat)
    requires i < |ns| && j < |ns|
  {
    ns[i] != ns[j] && ns[i].slots != ns[j].slots
  }

  /**
   * No node, and no node's storage, occurs twice in `ns`. The quantifier
   * fires only on a mention of Apart, so each use names its pair.
   */
  ghost predicate Distinct<T>(ns: seq<Node<T>>)
  {
    forall i, j :: 0 <= i < j < |ns| ==> Apart(ns, i, j)
  }

  /** Two entries of a distinct sequence with the same node, or the same storage, are one entry. */
  lemma {:induction false} Unaliased<T>(ns: seq<Node<T>>, i: nat, j: nat)
    requires Distinct(ns) && i < |ns| && j < |ns|
    ensures ns[i] == ns[j] || ns[i].slots == ns[j].slots ==> i == j
  {
    if i < j {
      assert Apart(ns, i, j);
    } else if j < i {
      assert Apart(ns, j, i);
    }
  }

  /**
   * The shape of a chain of nodes `ns`, which no heap update changes: every
   * node has capacity K and storage of its own, both in `repr`, no node
   * occurs twice, and `first` and `last` are its ends (both null when the
   * chain is empty).
   */
  ghost predicate ChainShape<T>(ns: seq<Node<T>>, first: Node?<T>, last: Node?<T>, repr: set<object>, K: nat)
  {
    0 < K
    && (forall i :: 0 <= i < |ns| ==> ns[i] in repr && ns[i].slots in repr && ns[i].K == K)
    && Distinct(ns)
    && first == (if ns == [] then null else ns[0])
    && last == (if ns == [] then null else ns[|ns| - 1])
  }

  /** In a distinct chain, no other node shares the storage of node i. */
  lemma {:induction false} StorageApart<T>(ns: seq<Node<T>>, i: nat)
    requires Distinct(ns) && i < |ns|
    ensures forall j :: 0 <= j < |ns| && j != i ==> ns[j].slots != ns[i].slots
  {
    forall j | 0 <= j < |ns| && j != i
      ensures ns[j].slots != ns[i].slots
    {
      Unaliased(ns, i, j);
    }
  }

  /** The prev and next pointers of node `i` of the chain `ns`. */
  ghost predicate LinkAt<T>(ns: seq<Node<T>>, i: nat)
    requires i < |ns|
    reads ns[i]
  {
    ns[i].prev == (if i == 0 then null else ns[i - 1])
    && ns[i].next == (if i == |ns| - 1 then null else ns[i + 1])
  }

  /** Prev and next pointers agree with the order of the chain. */
  ghost predicate ChainLinks<T>(ns: seq<Node<T>>)
    reads ns
  {
    forall i :: 0 <= i < |ns| ==> LinkAt(ns, i)
  }

  /** Every node of the chain is a valid node. */
  ghost predicate ChainValid<T>(ns: seq<Node<T>>)
    reads ns, set i | 0 <= i < |ns| :: ns[i].slots
  {
    forall i {:trigger ns[i].Valid()} :: 0 <= i < |ns| ==> ns[i].Valid()
  }

  /** A node whose storage and contents did not change. */
  twostate predicate ContentsKept<T>(n: Node<T>)
    reads n, n.slots
  {
    unchanged(n`left, n`size, n`Contents, n.slots)
  }

  /** A node whose links did not change. */
  twostate predicate LinksKept<T>(n: Node<T>)
    reads n
  {
    unchanged(n`prev, n`next)
  }

  /** A node whose prev pointer did not change. */
  twostate predicate PrevKept<T>(n: Node<T>)
    reads n
  {
    n.prev == old(n.prev)
  }

  /** A node whose next pointer did not change. */
  twostate predicate NextKept<T>(n: Node<T>)
    reads n
  {
    n.next == old(n.next)
  }

  /** `ns` is `os` with its entries [a, b) replaced by `mid`, index by index. */
  ghost predicate Spliced<X>(ns: seq<X>, os: seq<X>, a: nat, b: nat, mid: seq<X>)
  {
    a <= b <= |os| && |ns| == |os| - (b - a) + |mid|
    && forall i {:trigger ns[i]} :: 0 <= i < |ns| ==>
         ns[i] == if i < a then os[i] else if i < a + |mid| then mid[i - a] else os[i - |mid| + b - a]
  }

  lemma {:induction false} SplicedConcat<X>(os: seq<X>, a: nat, b: nat, mid: seq<X>)
    requires a <= b <= |os|
    ensures Spliced(os[..a] + mid + os[b..], os, a, b, mid)
  {
    var ns := os[..a] + mid + os[b..];
    forall i | 0 <= i < |ns| ensures ns[i] == if i < a then os[i] else if i < a + |mid| then mid[i - a] else os[i - |mid| + b - a] {
      if a + |mid| <= i {
        assert os[b..][i - |mid| - a] == os[i - |mid| + b - a];
      }
    }
  }

  /** The nodes of `ns` and their storage: what changing those nodes may touch. */
  function Span<T>(ns: seq<Node<T>>): set<object>
  {
    if ns == [] then {} else {ns[0], ns[0].slots} + Span(ns[1..])
  }

  lemma {:induction false} SpanHas<T>(ns: seq<Node<T>>, i: nat)
    requires i < |ns|
    ensures ns[i] in Span(ns) && ns[i].slots in Span(ns)
  {
    if i > 0 {
      SpanHas(ns[1..], i - 1);
    }
  }

  lemma {:induction false} SpanWitness<T>(ns: seq<Node<T>>, o: object) returns (i: nat)
    requires o in Span(ns)
    ensures i < |ns| && (o == ns[i] || o == ns[i].slots)
  {
    if o == ns[0] || o == ns[0].slots {
      i := 0;
    } else {
      var j := SpanWitness(ns[1..], o);
      i := j + 1;
    }
  }

  /** A node of a distinct chain outside [lo, hi) is not in the span of [lo, hi), nor is its storage. */
  lemma {:induction false} SpanAway<T>(ns: seq<Node<T>>, lo: nat, hi: nat, i: nat)
    requires Distinct(ns) && lo <= hi <= |ns| && i < |ns| && (i < lo || hi <= i)
    ensures ns[i] !in Span(ns[lo..hi]) && ns[i].slots !in Span(ns[lo..hi])
  {
    if ns[i] in Span(ns[lo..hi]) {
      var j := SpanWitness(ns[lo..hi], ns[i]);
      Unaliased(ns, i, lo + j);
    }
    if ns[i].slots in Span(ns[lo..hi]) {
      var j := SpanWitness(ns[lo..hi], ns[i].slots);
      Unaliased(ns, i, lo + j);
    }
  }

  /**
   * Splicing keeps the shape of a chain when every node `mid` brings in is
   * one of those it replaces or new, and the representation keeps every
   * node that stays.
   */
  lemma {:induction false} SpliceShape<T>(ns: seq<Node<T>>, os: seq<Node<T>>, a: nat, b: nat, mid: seq<Node<T>>,
                       f0: Node?<T>, l0: Node?<T>, repr0: set<object>, first: Node?<T>, last: Node?<T>, repr: set<object>, K: nat)
    requires ChainShape(os, f0, l0, repr0, K) && Spliced(ns, os, a, b, mid)
    requires repr0 - Span(os[a..b]) <= repr
    requires forall j :: 0 <= j < |mid| ==> mid[j] in repr && mid[j].slots in repr && mid[j].K == K
    requires forall j :: 0 <= j < |mid| ==> mid[j] in os[a..b] || (mid[j] !in repr0 && mid[j].slots !in repr0)
    requires Distinct(mid)
    requires first == (if ns == [] then null else ns[0]) && last == (if ns == [] then null else ns[|ns| - 1])
    ensures ChainShape(ns, first, last, repr, K)
  {
    var m := |mid|;
    forall i, j | 0 <= i < j < |ns| ensures Apart(ns, i, j) {
      if a <= i < a + m && a <= j < a + m {
        assert Apart(mid, i - a, j - a);
      } else if a <= i < a + m || a <= j < a + m {
        var x, o := if a <= i < a + m then i - a else j - a, if a <= i < a + m then j - m + b - a else i;
        assert mid[x] == ns[if a <= i < a + m then i else j] && os[o] == ns[if a <= i < a + m then j else i];
        assert o < a || b <= o;
        if mid[x] in os[a..b] {
          var t :| a <= t < b && os[t] == mid[x];
          Unaliased(os, o, t);
        } else {
          assert os[o] in repr0 && os[o].slots in repr0;
        }
      } else {
        var oi := if i < a then i else i - m + b - a;
        var oj := if j < a then j else j - m + b - a;
        assert ns[i] == os[oi] && ns[j] == os[oj] && oi < oj;
        assert Apart(os, oi, oj);
      }
    }
    forall i | 0 <= i < |ns| ensures ns[i] in repr && ns[i].slots in repr {
      if i < a || a + m <= i {
        var o := if i < a then i else i - m + b - a;
        assert ns[i] == os[o];
        SpanAway(os, a, b, o);
      } else {
        assert ns[i] == mid[i - a];
      }
    }
  }

  /** The nodes next to node k of `ns`: those whose links change when it is unlinked. */
  function Neighbours<T>(ns: seq<Node<T>>, k: nat): set<object>
    requires k < |ns|
  {
    (if 0 < k then {ns[k - 1]} else {}) + (if k + 1 < |ns| then {ns[k + 1]} else {})
  }

  /** The nodes on either side of the gap before entry a of `ns`: those whose links change when a node is linked in there. */
  function Around<T>(ns: seq<Node<T>>, a: nat): set<object>
    requires a <= |ns|
  {
    (if 0 < a then {ns[a - 1]} else {}) + (if a < |ns| then {ns[a]} else {})
  }

  /** The first index of the nodes a change between a and b may touch: the seam a - 1 included. */
  function SeamLo(a: nat): nat
  {
    if a == 0 then 0 else a - 1
  }

  /** The end of the nodes a change between a and b may touch: the seam b included. */
  function SeamHi(b: nat, n: nat): nat
  {
    if b < n then b + 1 else n
  }

  /** Splicing keeps every node valid when the nodes kept from `os` are valid. */
  lemma {:induction false} SpliceValid<T>(ns: seq<Node<T>>, os: seq<Node<T>>, a: nat, b: nat, mid: seq<Node<T>>)
    requires Spliced(ns, os, a, b, mid) && ChainValid(mid)
    requires forall i :: 0 <= i < |os| && (i < a || b <= i) ==> os[i].Valid()
    ensures ChainValid(ns)
  {
    var m := |mid|;
    forall i | 0 <= i < |ns| ensures ns[i].Valid() {
      if i < a {
        assert ns[i] == os[i];
      } else if i < a + m {
        assert ns[i] == mid[i - a];
      } else {
        assert ns[i] == os[i - m + b - a];
      }
    }
  }

  /**
   * Splicing keeps the links when the nodes kept from `os` are linked as
   * they were in `os`, the seams a - 1 and b keep their outer links and
   * point at the ends of `mid`, and `mid` is linked in `ns`.
   */
  lemma {:induction false} SpliceLinks<T>(ns: seq<Node<T>>, os: seq<Node<T>>, a: nat, b: nat, mid: seq<Node<T>>)
    requires Spliced(ns, os, a, b, mid)
    requires forall i :: 0 <= i < |os| && (i + 1 < a || b < i) ==> LinkAt(os, i)
    requires 0 < a ==> os[a - 1].prev == (if a == 1 then null else os[a - 2])
    requires 0 < a ==> os[a - 1].next == (if a < |ns| then ns[a] else null)
    requires b < |os| ==> os[b].next == (if b == |os| - 1 then null else os[b + 1])
    requires b < |os| ==> os[b].prev == (if 0 < a + |mid| then ns[a + |mid| - 1] else null)
    requires forall i :: a <= i < a + |mid| ==> LinkAt(ns, i)
    ensures ChainLinks(ns)
  {
    var m := |mid|;
    forall i | 0 <= i < |ns| ensures LinkAt(ns, i) {
      if i < a {
        assert ns[i] == os[i];
        if 0 < i { assert ns[i - 1] == os[i - 1]; }
        if i + 1 < a {
          assert LinkAt(os, i);
          assert ns[i + 1] == os[i + 1];
        }
      } else if a + m <= i {
        var t := i - m + b - a;
        assert ns[i] == os[t];
        if b < t {
          assert LinkAt(os, t);
          assert ns[i - 1] == os[t - 1];
        }
        if i + 1 < |ns| { assert ns[i + 1] == os[t + 1]; }
      }
    }
  }

  /** Splicing the nodes splices their contents, `obs` being the old contents of `os`. */
  lemma {:induction false} SpliceBlocks<T>(ns: seq<Node<T>>, os: seq<Node<T>>, a: nat, b: nat, mid: seq<Node<T>>, obs: seq<seq<T>>)
    requires Spliced(ns, os, a, b, mid) && |obs| == |os|
    requires forall i :: 0 <= i < |os| && (i < a || b <= i) ==> os[i].Contents == obs[i]
    ensures Spliced(BlocksOf(ns), obs, a, b, BlocksOf(mid))
  {
    var m, bs := |mid|, BlocksOf(ns);
    forall i | 0 <= i < |bs|
      ensures bs[i] == if i < a then obs[i] else if i < a + m then BlocksOf(mid)[i - a] else obs[i - m + b - a]
    {
      if i < a {
        assert ns[i] == os[i];
      } else if i < a + m {
        assert ns[i] == mid[i - a];
      } else {
        assert ns[i] == os[i - m + b - a];
      }
    }
  }

  lemma {:induction false} SplicedIsConcat<X>(ns: seq<X>, os: seq<X>, a: nat, b: nat, mid: seq<X>)
    requires Spliced(ns, os, a, b, mid)
    ensures ns == os[..a] + mid + os[b..]
  {
    var cs := os[..a] + mid + os[b..];
    forall i | 0 <= i < |ns| ensures ns[i] == cs[i] {
      if a + |mid| <= i {
        assert os[b..][i - |mid| - a] == os[i - |mid| + b - a];
      }
    }
  }
}
