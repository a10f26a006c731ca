/**
 * A list node (lib/Node.h): a fixed-capacity double-ended circular buffer.
 *
 * `slots` is the node's raw storage of K cells; `left` is the physical slot
 * of logical element 0 and `size` the number of live elements. The ghost
 * `Contents` is the logical sequence the node holds; `Valid` ties it to the
 * storage: read from `left` in logical order the slots hold `Contents` and
 * then nothing but vacant cells, so exactly the live cells are constructed.
 */
module NodeBuffer {
  import opened SeqOps
  import opened Ring

  /** The shorter way round the ring from `p1` to `p2` (Node::CalcDist). */
  function CalcDist(p1: nat, p2: nat, k: nat): (d: nat)
    requires p1 < k && p2 < k
    ensures 2 * d <= k
    ensures CalcModInd(p1 + d, k) == p2 || CalcModInd(p2 + d, k) == p1
  {
    var hi, lo := if p1 < p2 then p2 else p1, if p1 < p2 then p1 else p2;
    CalcModIndWindow(lo + (hi - lo), k);
    CalcModIndWindow(hi + (k - (hi - lo)), k);
    if hi - lo < k - (hi - lo) then hi - lo else k - (hi - lo)
  }

  /**
   * For two logical indices less than half the ring apart, the circular
   * distance of their slots is their logical distance.
   */
  lemma {:induction false} CalcDistOfLogical(left: nat, r1: nat, r2: nat, k: nat)
    requires left < k && r1 < k && r2 < k
    requires 2 * (if r1 <= r2 then r2 - r1 else r1 - r2) < k
    ensures CalcDist(Phys(left, r1, k), Phys(left, r2, k), k) == if r1 <= r2 then r2 - r1 else r1 - r2
  {
    CalcModIndWindow(left + r1, k);
    CalcModIndWindow(left + r2, k);
  }

  /**
   * SiftInsert's direction test: stepping the distance forward from the
   * source slot lands on the target exactly when the target lies at or
   * after the source in logical order, so SiftRight runs iff r1 <= r2.
   */
  lemma {:induction false} SiftDirection(left: nat, r1: nat, r2: nat, k: nat, x: int)
    requires left < k && r1 < k && r2 < k
    requires 2 * (if r1 <= r2 then r2 - r1 else r1 - r2) < k
    requires x == Phys(left, r1, k) + (if r1 <= r2 then r2 - r1 else r1 - r2)
    ensures CalcModInd(x, k) == Phys(left, r2, k) <==> r1 <= r2
  {
    CalcModIndWindow(left + r1, k);
    CalcModIndWindow(left + r2, k);
    CalcModIndWindow(x, k);
  }

  /** One more swap of SiftRight carries the element one more logical index forward. */
  lemma {:induction false} SiftRightStep<T>(a: seq<Slot<T>>, left: nat, v0: seq<Slot<T>>, r: nat, j: nat)
    requires left < |a| == |v0| && r + j + 1 < |a|
    requires View(a, left) == Move(v0, r, r + j)
    ensures View(Swap(a, Phys(left, r + j, |a|), Phys(left, r + j + 1, |a|)), left) == Move(v0, r, r + j + 1)
  {
    ViewSwap(a, left, r + j, r + j + 1);
    MoveOneMoreRight(v0, r, r + j);
  }

  /** One more swap of SiftLeft carries the element one more logical index back. */
  lemma {:induction false} SiftLeftStep<T>(a: seq<Slot<T>>, left: nat, v0: seq<Slot<T>>, r: nat, j: nat)
    requires left < |a| == |v0| && j < r < |a|
    requires View(a, left) == Move(v0, r, r - j)
    ensures View(Swap(a, Phys(left, r - j, |a|), Phys(left, r - j - 1, |a|)), left) == Move(v0, r, r - j - 1)
  {
    ViewSwap(a, left, r - j, r - j - 1);
    MoveOneMoreLeft(v0, r, r - j);
  }

  /** Node.h:94 as written: pop_back destroys the slot one past the last live element. */
  function PopBackSlotAsWritten(left: nat, size: nat, k: nat): (p: nat)
    requires left < k && size <= k
    ensures p < k
  {
    CalcModInd(left + size, k)
  }

  /**
   * The slot pop_back destroys as written never holds the last element. In
   * a full node it holds the first element; otherwise it is not live at all.
   */
  lemma {:induction false} PopBackDestroysWrongSlot(left: nat, size: nat, k: nat)
    requires left < k && 0 < size <= k
    ensures 1 < k ==> PopBackSlotAsWritten(left, size, k) != Phys(left, size - 1, k)
    ensures size == k ==> PopBackSlotAsWritten(left, size, k) == Phys(left, 0, k)
    ensures size < k ==> forall i :: 0 <= i < size ==> PopBackSlotAsWritten(left, size, k) != Phys(left, i, k)
  {
    CalcModIndWindow(left + size, k);
    CalcModIndWindow(left + size - 1, k);
    CalcModIndWindow(left, k);
    forall i | 0 <= i < size
      ensures size < k ==> PopBackSlotAsWritten(left, size, k) != Phys(left, i, k)
    {
      CalcModIndWindow(left + i, k);
    }
  }

  /**
   * How many elements MoveToLeft / MoveToRight transfer: as many as the
   * source holds, the caller allows and the destination has room for.
   */
  function TransferCount(src: nat, maxLen: nat, room: nat): (n: nat)
    ensures n <= src && n <= maxLen && n <= room
    ensures n == src || n == maxLen || n == room
  {
    if src == 0 then 0
    else
      var m := if src < maxLen then src else maxLen;
      if room < m then room else m
  }

  class Node<T> {
    /** The capacity: MaxSize of the source's template. */
    const K: nat
    const slots: array<Slot<T>>
    var left: nat
    var size: nat
    var prev: Node?<T>
    var next: Node?<T>
    ghost var Contents: seq<T>

    ghost predicate Valid()
      reads this`left, this`size, this`Contents, slots
    {
      0 < K && slots.Length == K && left < K && size == |Contents| <= K
      && View(slots[..], left) == Layout(Contents, K)
    }

    /**
     * A fresh node (Node.h:19-23). The source leaves `left_` unset until the
     * first push; the model starts it where that push puts it, at K / 2.
     * The difference cannot be observed: push_back and push_front reset
     * `left_` on an empty node, and no other operation reads it there.
     */
    constructor (k: nat)
      requires 0 < k
      ensures Valid() && K == k && Contents == [] && fresh(slots)
      ensures prev == null && next == null
    {
      K := k;
      slots := new Slot<T>[k](_ => Vacant);
      left := k / 2;
      size := 0;
      prev, next := null, null;
      Contents := [];
    }

    /**
     * The copy constructor (Node.h:39-52): same start slot, same links and a
     * copy of every element, in storage of its own.
     */
    constructor Copy(other: Node<T>)
      requires other.Valid()
      ensures Valid() && K == other.K && fresh(slots)
      ensures Contents == other.Contents && left == other.left
      ensures prev == other.prev && next == other.next
    {
      K := other.K;
      slots := new Slot<T>[other.K](_ => Vacant);
      left := other.left;
      size := other.size;
      prev, next := other.prev, other.next;
      Contents := other.Contents;
      new;
      assert View(slots[..], left) == Layout([], K);
      ConstructCopies(other);
    }

    /**
     * The construction loop shared by the copy constructor and copy
     * assignment (Node.h:33-36, 47-50): into vacant storage, with start, size
     * and contents already taken from `other`, construct a copy of each of
     * `other`'s elements in the same slot.
     */
    method ConstructCopies(other: Node<T>)
      requires other.Valid() && other.slots != slots && other.K == K
      requires 0 < K && slots.Length == K && left == other.left && Contents == other.Contents
      requires size == |Contents| && View(slots[..], left) == Layout([], K)
      modifies slots
      ensures Valid()
    {
      var i := 0;
      while i < size
        invariant 0 <= i <= size
        invariant View(slots[..], left) == Layout(Contents[..i], K)
      {
        var x := other.Get(i);
        assert Contents[..i] + [x] == Contents[..i + 1];
        PushBackKeepsLayout(slots[..], left, Contents[..i], x);
        slots[CalcModInd(left + i, K)] := Holds(x);
        i := i + 1;
      }
      assert Contents[..size] == Contents;
    }

    /**
     * The destructor (Node.h:53-57): destroys every live element. Only the
     * storage changes; the model's memory is reclaimed by the runtime.
     */
    method Destroy()
      requires Valid()
      modifies slots
      ensures View(slots[..], left) == Layout([], K)
    {
      VacatedNone(Contents, K);
      var i := 0;
      while i < size
        invariant 0 <= i <= size
        invariant View(slots[..], left) == Vacated(Contents, i, K)
      {
        DestroyKeepsVacated(slots[..], left, Contents, i);
        slots[CalcModInd(left + i, K)] := Vacant;
        i := i + 1;
      }
      VacatedAll(Contents, K);
    }

    /** Copy assignment (Node.h:24-38): destroy every element, then copy `other`'s. */
    method Assign(other: Node<T>)
      requires Valid() && other.Valid() && other.K == K && other.slots != slots
      modifies this`left, this`size, this`Contents, this`prev, this`next, slots
      ensures Valid() && Contents == old(other.Contents) && left == old(other.left)
      ensures prev == old(other.prev) && next == old(other.next)
    {
      Destroy();
      ViewAllVacant(slots[..], left, other.left);
      left := other.left;
      size := other.size;
      prev, next := other.prev, other.next;
      Contents := other.Contents;
      ConstructCopies(other);
    }

    /** operator[] (Node.h:179-186): logical index `ind` lives in slot (left + ind) mod K. */
    function Get(ind: nat): (x: T)
      reads this`left, this`size, this`Contents, slots
      requires Valid() && ind < size
      ensures x == Contents[ind]
    {
      assert View(slots[..], left)[ind] == Layout(Contents, K)[ind];
      slots[CalcModInd(left + ind, K)].value
    }

    /** front() (Node.h:72): the element in slot `left`. */
    function Front(): (x: T)
      reads this`left, this`size, this`Contents, slots
      requires Valid() && 0 < size
      ensures x == Contents[0]
    {
      CalcModIndWindow(left, K);
      assert View(slots[..], left)[0] == Layout(Contents, K)[0];
      slots[left].value
    }

    /** back() (Node.h:73): the element in slot (left + size - 1) mod K. */
    function Back(): (x: T)
      reads this`left, this`size, this`Contents, slots
      requires Valid() && 0 < size
      ensures x == Contents[size - 1]
    {
      assert View(slots[..], left)[size - 1] == Layout(Contents, K)[size - 1];
      slots[CalcModInd(left + size - 1, K)].value
    }

    /**
     * push_back (Node.h:75-88): a full node refuses the value and is left
     * as it was; an empty node first restarts at slot K / 2.
     */
    method PushBack(v: T) returns (ok: bool)
      requires Valid()
      modifies this`left, this`size, this`Contents, slots
      ensures Valid()
      ensures ok <==> old(size) < K
      ensures ok ==> Contents == old(Contents) + [v]
      ensures ok ==> left == if old(size) == 0 then K / 2 else old(left)
      ensures !ok ==> Contents == old(Contents) && left == old(left) && slots[..] == old(slots[..])
    {
      if size == K {
        return false;
      }
      if size == 0 {
        ViewAllVacant(slots[..], left, K / 2);
        left := K / 2;
      }
      var p := (left + size) % K;
      CalcModIndIsResidue(left + size, K);
      PushBackKeepsLayout(slots[..], left, Contents, v);
      slots[p] := Holds(v);
      size := size + 1;
      Contents := Contents + [v];
      ok := true;
    }

    /**
     * pop_back with the slot it evidently means to destroy: that of the last
     * live element, (left + size - 1) mod K. An empty node is left as it was.
     */
    method PopBack()
      requires Valid()
      modifies this`size, this`Contents, slots
      ensures Valid() && left == old(left)
      ensures old(size) == 0 ==> Contents == old(Contents) && slots[..] == old(slots[..])
      ensures old(size) > 0 ==> Contents == old(Contents)[..old(size) - 1]
    {
      if size == 0 {
        return;
      }
      PopBackKeepsLayout(slots[..], left, Contents);
      slots[CalcModInd(left + size - 1, K)] := Vacant;
      size := size - 1;
      Contents := Contents[..size];
    }

    /**
     * pop_back as written (Node.h:90-101): it destroys slot (left + size)
     * mod K. The count and the logical contents lose the last element, but
     * the storage no longer matches them: the last element stays
     * constructed, and either a vacant slot or (in a full node) the first
     * element is destroyed.
     */
    method PopBackAsWritten()
      requires Valid() && 0 < size
      modifies this`size, this`Contents, slots
      ensures Contents == old(Contents)[..old(size) - 1] && left == old(left)
      ensures 1 < K ==> !Valid()
    {
      PopBackDestroysWrongSlot(left, size, K);
      var last := CalcModInd(left + size - 1, K);
      assert View(slots[..], left)[size - 1] == Holds(Contents[size - 1]);
      slots[PopBackSlotAsWritten(left, size, K)] := Vacant;
      size := size - 1;
      Contents := Contents[..size];
      if 1 < K {
        assert View(slots[..], left)[size] == slots[last] == Holds(old(Contents)[size]);
      }
    }

    /**
     * push_front (Node.h:103-115): a full node refuses the value; otherwise
     * the start moves one slot back round the ring and the value goes there.
     */
    method PushFront(v: T) returns (ok: bool)
      requires Valid()
      modifies this`left, this`size, this`Contents, slots
      ensures Valid()
      ensures ok <==> old(size) < K
      ensures ok ==> Contents == [v] + old(Contents)
      ensures ok ==> left == CalcModInd((if old(size) == 0 then K / 2 else old(left)) - 1, K)
      ensures !ok ==> Contents == old(Contents) && left == old(left) && slots[..] == old(slots[..])
    {
      if size == K {
        return false;
      }
      if size == 0 {
        ViewAllVacant(slots[..], left, K / 2);
        left := K / 2;
      }
      var p := CalcModInd(left - 1, K);
      PushFrontKeepsLayout(slots[..], left, Contents, v);
      slots[p] := Holds(v);
      left := p;
      size := size + 1;
      Contents := [v] + Contents;
      ok := true;
    }

    /**
     * pop_front (Node.h:117-129): destroys the first element and moves the
     * start one slot forward. An empty node is left as it was.
     */
    method PopFront()
      requires Valid()
      modifies this`left, this`size, this`Contents, slots
      ensures Valid()
      ensures old(size) == 0 ==> Contents == old(Contents) && left == old(left) && slots[..] == old(slots[..])
      ensures old(size) > 0 ==> Contents == old(Contents)[1..] && left == CalcModInd(old(left) + 1, K)
    {
      if size == 0 {
        return;
      }
      PopFrontKeepsLayout(slots[..], left, Contents);
      slots[left] := Vacant;
      size := size - 1;
      left := CalcModInd(left + 1, K);
      Contents := Contents[1..];
    }

    /**
     * SiftRight (Node.h:237-244): `count` adjacent swaps walking forward from
     * slot `from`, which holds logical index `r`; they carry that element to
     * logical index r + count.
     */
    method SiftRight(from: nat, count: nat, ghost r: nat)
      requires 0 < K == slots.Length && left < K
      requires r + count < K && from == Phys(left, r, K)
      modifies slots
      ensures View(slots[..], left) == Move(old(View(slots[..], left)), r, r + count)
    {
      ghost var v0 := View(slots[..], left);
      MoveNowhere(v0, r);
      var f: int, c: nat := from, count;
      while c > 0
        invariant |v0| == K && c <= count && f == from + (count - c)
        invariant View(slots[..], left) == Move(v0, r, r + (count - c))
      {
        ghost var j := count - c;
        PhysShift(left, r, j, K, f);
        PhysShift(left, r, j + 1, K, f + 1);
        var p, q := CalcModInd(f, K), CalcModInd(f + 1, K);
        ghost var a := slots[..];
        SiftRightStep(a, left, v0, r, j);
        var t := slots[p];
        slots[p] := slots[q];
        slots[q] := t;
        assert p == Phys(left, r + j, K) && q == Phys(left, r + j + 1, K);
        assert slots[..] == Swap(a, p, q);
        assert View(slots[..], left) == Move(v0, r, r + j + 1);
        f, c := f + 1, c - 1;
      }
    }

    /**
     * SiftLeft (Node.h:245-252): `count` adjacent swaps walking backward from
     * slot `from`, which holds logical index `r`; they carry that element to
     * logical index r - count.
     */
    method SiftLeft(from: nat, count: nat, ghost r: nat)
      requires 0 < K == slots.Length && left < K
      requires count <= r < K && from == Phys(left, r, K)
      modifies slots
      ensures View(slots[..], left) == Move(old(View(slots[..], left)), r, r - count)
    {
      ghost var v0 := View(slots[..], left);
      MoveNowhere(v0, r);
      var f: int, c: nat := from, count;
      while c > 0
        invariant |v0| == K && c <= count && f == from - (count - c)
        invariant View(slots[..], left) == Move(v0, r, r - (count - c))
      {
        ghost var j := count - c;
        PhysShift(left, r, -j, K, f);
        PhysShift(left, r, -j - 1, K, f - 1);
        var p, q := CalcModInd(f, K), CalcModInd(f - 1, K);
        ghost var a := slots[..];
        SiftLeftStep(a, left, v0, r, j);
        var t := slots[p];
        slots[p] := slots[q];
        slots[q] := t;
        assert p == Phys(left, r - j, K) && q == Phys(left, r - j - 1, K);
        assert slots[..] == Swap(a, p, q);
        assert View(slots[..], left) == Move(v0, r, r - j - 1);
        f, c := f - 1, c - 1;
      }
    }

    /**
     * SiftInsert (Node.h:225-236): carries the element in slot `from` to
     * slot `to` the short way round. Every caller passes the slots of two
     * logical indices less than half the ring apart, so the rotation covers
     * exactly the elements between them and no dead slot.
     */
    method SiftInsert(from: nat, to: nat, ghost r1: nat, ghost r2: nat)
      requires 0 < K == slots.Length && left < K && r1 < K && r2 < K
      requires from == Phys(left, r1, K) && to == Phys(left, r2, K)
      requires 2 * (if r1 <= r2 then r2 - r1 else r1 - r2) < K
      modifies slots
      ensures View(slots[..], left) == Move(old(View(slots[..], left)), r1, r2)
    {
      ghost var v0 := View(slots[..], left);
      var count := CalcDist(from, to, K);
      CalcDistOfLogical(left, r1, r2, K);
      assert count == if r1 <= r2 then r2 - r1 else r1 - r2;
      SiftDirection(left, r1, r2, K, from + count);
      if CalcModInd(from + count, K) == to {
        assert r1 + count == r2;
        SiftRight(from, count, r1);
        assert View(slots[..], left) == Move(v0, r1, r2);
      } else {
        assert r1 - count == r2;
        SiftLeft(from, count, r1);
        assert View(slots[..], left) == Move(v0, r1, r2);
      }
    }

    /**
     * insert (Node.h:131-156): a full node is left as it was and an empty
     * node takes the value as its only element. Otherwise the value is
     * pushed at the nearer end and sifted to `ind`.
     */
    method Insert(v: T, ind: nat)
      requires Valid() && (size == K || size == 0 || ind <= size)
      modifies this`left, this`size, this`Contents, slots
      ensures Valid()
      ensures old(size) == K ==> Contents == old(Contents) && left == old(left) && slots[..] == old(slots[..])
      ensures old(size) == 0 ==> Contents == [v]
      ensures 0 < old(size) < K ==> Contents == Ins(old(Contents), ind, v)
      ensures 0 < old(size) < K ==> left == if ind < (old(size) + 1) / 2 then CalcModInd(old(left) - 1, K) else old(left)
    {
      if size == K {
        return;
      }
      if size == 0 {
        var _ := PushBack(v);
        return;
      }
      ghost var c0 := Contents;
      if ind < (size + 1) / 2 {
        var newIndex := CalcModInd(left - 1, K);
        var requiredIndex := CalcModInd(newIndex + ind, K);
        var _ := PushFront(v);
        assert left == newIndex;
        CalcModIndWindow(left, K);
        PhysShift(left, 0, ind, K, newIndex + ind);
        LayoutMove([v] + c0, 0, ind, K);
        MoveFromFront(c0, v, ind);
        SiftInsert(newIndex, requiredIndex, 0, ind);
      } else {
        var newIndex := CalcModInd(left + size, K);
        var requiredIndex := CalcModInd(newIndex - (size - ind), K);
        var _ := PushBack(v);
        PhysShift(left, |c0|, ind - |c0|, K, newIndex - (|c0| - ind));
        LayoutMove(c0 + [v], |c0|, ind, K);
        MoveFromBack(c0, v, ind);
        SiftInsert(newIndex, requiredIndex, |c0|, ind);
      }
      Contents := Ins(c0, ind, v);
    }

    /**
     * erase (Node.h:158-171): the element at `ind` is sifted to the nearer
     * end and popped there. An empty node is left as it was.
     */
    method Erase(ind: nat)
      requires Valid() && (size == 0 || ind < size)
      modifies this`left, this`size, this`Contents, slots
      ensures Valid()
      ensures old(size) == 0 ==> Contents == old(Contents) && left == old(left) && slots[..] == old(slots[..])
      ensures old(size) > 0 ==> Contents == Remove(old(Contents), ind)
      ensures old(size) > 0 ==> left == if ind < old(size) / 2 then CalcModInd(old(left) + 1, K) else old(left)
    {
      if size == 0 {
        return;
      }
      ghost var c0 := Contents;
      var deleted := CalcModInd(left + ind, K);
      if ind < size / 2 {
        var first := CalcModInd(left, K);
        assert first == Phys(left, 0, K);
        LayoutMove(c0, ind, 0, K);
        SiftInsert(deleted, first, ind, 0);
        Contents := Move(c0, ind, 0);
        MoveToFrontThenDrop(c0, ind);
        PopFront();
      } else {
        var last := CalcModInd(left + size - 1, K);
        assert last == Phys(left, size - 1, K);
        LayoutMove(c0, ind, size - 1, K);
        SiftInsert(deleted, last, ind, size - 1);
        Contents := Move(c0, ind, size - 1);
        assert Valid();
        MoveToBackThenDrop(c0, ind);
        PopBack();
      }
    }
  }

  /** CanBeMerged (Node.h:270-273): the two nodes' elements fit in one node. */
  predicate CanBeMerged<T>(a: Node<T>, b: Node<T>)
    reads a`size, b`size
  {
    a.size + b.size <= a.K
  }

  /** Two nodes fit in one exactly when an unlimited transfer between them moves everything. */
  lemma {:induction false} CanBeMergedIffTotalTransfer(sa: nat, sb: nat, k: nat)
    requires sa <= k && sb <= k
    ensures sa + sb <= k <==> TransferCount(sb, k, k - sa) == sb
    ensures sa + sb <= k <==> TransferCount(sa, k, k - sb) == sa
  {
  }

  /**
   * MoveToLeft (Node.h:274-287): moves the first elements of `b` to the
   * back of `a`, as many as TransferCount allows; the concatenation of the
   * two nodes' contents does not change.
   */
  method MoveToLeft<T>(a: Node<T>, b: Node<T>, maxLen: nat)
    requires a.Valid() && b.Valid() && a.K == b.K && a != b && a.slots != b.slots
    modifies a`left, a`size, a`Contents, a.slots, b`left, b`size, b`Contents, b.slots
    ensures a.Valid() && b.Valid()
    ensures var n := TransferCount(old(b.size), maxLen, a.K - old(a.size));
      a.Contents == old(a.Contents) + old(b.Contents)[..n] && b.Contents == old(b.Contents)[n..]
    ensures a.Contents + b.Contents == old(a.Contents + b.Contents)
  {
    ghost var a0, b0 := a.Contents, b.Contents;
    if b.size == 0 {
      return;
    }
    var n := TransferCount(b.size, maxLen, a.K - a.size);
    var i := 0;
    while i < n
      invariant 0 <= i <= n && a.Valid() && b.Valid()
      invariant a.Contents == a0 + b0[..i] && b.Contents == b0[i..]
    {
      var x := b.Front();
      var _ := a.PushBack(x);
      b.PopFront();
      assert b0[..i] + [b0[i]] == b0[..i + 1];
      i := i + 1;
    }
    assert b0 == b0[..n] + b0[n..];
  }

  /**
   * MoveToRight (Node.h:288-299): moves the last elements of `a` to the
   * front of `b`, as many as TransferCount allows; the concatenation of
   * the two nodes' contents does not change.
   */
  method MoveToRight<T>(a: Node<T>, b: Node<T>, maxLen: nat)
    requires a.Valid() && b.Valid() && a.K == b.K && a != b && a.slots != b.slots
    modifies a`left, a`size, a`Contents, a.slots, b`left, b`size, b`Contents, b.slots
    ensures a.Valid() && b.Valid()
    ensures var n := TransferCount(old(a.size), maxLen, b.K - old(b.size));
      a.Contents == old(a.Contents)[..old(a.size) - n]
      && b.Contents == old(a.Contents)[old(a.size) - n..] + old(b.Contents)
    ensures a.Contents + b.Contents == old(a.Contents + b.Contents)
  {
    ghost var a0, b0 := a.Contents, b.Contents;
    if a.size == 0 {
      return;
    }
    var n := TransferCount(a.size, maxLen, b.K - b.size);
    var i := 0;
    while i < n
      invariant 0 <= i <= n && a.Valid() && b.Valid()
      invariant a.Contents == a0[..|a0| - i] && b.Contents == a0[|a0| - i..] + b0
    {
      var x := a.Back();
      var _ := b.PushFront(x);
      a.PopBack();
      ShiftLastAcross(a0, b0, |a0| - i);
      i := i + 1;
    }
    assert a0 == a0[..|a0| - n] + a0[|a0| - n..];
  }

  /** Moving the last element of a prefix to the front of the rest keeps the split consistent. */
  lemma {:induction false} ShiftLastAcross<T>(s: seq<T>, t: seq<T>, m: nat)
    requires 0 < m <= |s|
    ensures s[..m][..m - 1] == s[..m - 1] && s[..m][m - 1] == s[m - 1]
    ensures [s[m - 1]] + (s[m..] + t) == s[m - 1..] + t
  {
    assert [s[m - 1]] + s[m..] == s[m - 1..];
  }
}
