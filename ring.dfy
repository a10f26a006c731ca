/**
 * Index arithmetic of a node's circular slot block (lib/Node.h).
 *
 * A node keeps up to K elements in K physical slots. Logical element i lives
 * in physical slot (left + i) mod K. `View` reads the slot block in logical
 * order starting at `left`; `Layout` is the arrangement a node holding the
 * elements `s` must have in logical order: `s`, then vacant slots.
 */
module Ring {
  import opened SeqOps

  /** A physical slot: raw storage, or storage holding a constructed value. */
  datatype Slot<T> = Vacant | Holds(value: T)

  /** 2^64: the source's indices are unsigned 64-bit `size_t` values. */
  const Word: int := 0x1_0000_0000_0000_0000

  lemma {:induction false} MulNonneg(a: int, b: int)
    requires 0 <= a && 0 <= b
    ensures 0 <= a * b
  {
  }

  /** Euclidean division is determined by the bracket its quotient lies in. */
  lemma {:induction false} DivModUnique(y: int, k: nat, q: int)
    requires 0 < k && q * k <= y < q * k + k
    ensures y / k == q && y % k == y - q * k
  {
    var d, r := y / k, y % k;
    assert y == d * k + r && 0 <= r < k;
    if d > q {
      MulNonneg(d - q - 1, k);
    } else if d < q {
      MulNonneg(q - d - 1, k);
    }
  }

  /**
   * CalcModInd: `(ind + K) % K`, the physical slot of a logical offset that
   * may be up to K below zero.
   */
  function CalcModInd(ind: int, k: nat): (r: nat)
    requires 0 < k && 0 <= ind + k
    ensures r < k
  {
    (ind + k) % k
  }

  /** CalcModInd is the mathematical residue of its argument. */
  lemma {:induction false} CalcModIndIsResidue(ind: int, k: nat)
    requires 0 < k && 0 <= ind + k
    ensures CalcModInd(ind, k) == ind % k
  {
    var q := (ind + k) / k;
    assert ind + k == q * k + (ind + k) % k;
    DivModUnique(ind, k, q - 1);
  }

  /** On the window [-K, 2K) CalcModInd is a single conditional add or subtract. */
  lemma {:induction false} CalcModIndWindow(x: int, k: nat)
    requires 0 < k && 0 <= x + k < 2 * k + k
    ensures CalcModInd(x, k) == if x < 0 then x + k else if x < k then x else x - k
  {
    if x < 0 {
      DivModUnique(x + k, k, 0);
    } else if x < k {
      DivModUnique(x + k, k, 1);
    } else {
      DivModUnique(x + k, k, 2);
    }
  }

  /**
   * The source computes CalcModInd on `size_t`: a negative argument such as
   * `left_ - 1` wraps to 2^64 + ind first, and `ind + K` wraps again. For
   * every argument the source passes (at least -K, far below 2^64 - K) the
   * unsigned computation gives the same slot as the Euclidean one.
   */
  lemma {:induction false} CalcModIndAsUnsigned(x: int, k: nat)
    requires 0 < k < Word && 0 <= x + k < Word
    ensures (((x % Word) + k) % Word) % k == CalcModInd(x, k)
  {
    if x < 0 {
      DivModUnique(x, Word, -1);
      DivModUnique(x + Word + k, Word, 1);
    } else {
      DivModUnique(x, Word, 0);
      DivModUnique(x + k, Word, 0);
    }
  }

  /** The physical slot of logical index `i` when logical 0 is at `left`. */
  function Phys(left: nat, i: int, k: nat): (p: nat)
    requires 0 < k && 0 <= left + i + k
    ensures p < k
  {
    CalcModInd(left + i, k)
  }

  /** Distinct logical indices live in distinct physical slots. */
  lemma {:induction false} PhysInjective(left: nat, i: nat, j: nat, k: nat)
    requires left < k && i < k && j < k && Phys(left, i, k) == Phys(left, j, k)
    ensures i == j
  {
    CalcModIndWindow(left + i, k);
    CalcModIndWindow(left + j, k);
  }

  /** Every physical slot holds some logical index. */
  lemma {:induction false} PhysPreimage(left: nat, p: nat, k: nat) returns (i: nat)
    requires left < k && p < k
    ensures i < k && Phys(left, i, k) == p
  {
    i := if left <= p then p - left else p - left + k;
    CalcModIndWindow(left + i, k);
  }

  /** Stepping `j` physical slots from logical index `r` reaches logical index `r + j`. */
  lemma {:induction false} PhysShift(left: nat, r: nat, j: int, k: nat, x: int)
    requires left < k && r < k && 0 <= r + j < k && x == Phys(left, r, k) + j
    ensures CalcModInd(x, k) == Phys(left, r + j, k)
  {
    CalcModIndWindow(left + r, k);
    CalcModIndWindow(left + r + j, k);
    CalcModIndWindow(Phys(left, r, k) + j, k);
  }

  /** The slot block read in logical order, starting at physical slot `left`. */
  function View<T>(a: seq<Slot<T>>, left: nat): (v: seq<Slot<T>>)
    requires left < |a|
    ensures |v| == |a|
  {
    seq(|a|, i requires 0 <= i < |a| => a[Phys(left, i, |a|)])
  }

  /** The elements `s` followed by vacant slots, K slots in all. */
  function Layout<T>(s: seq<T>, k: nat): (v: seq<Slot<T>>)
    requires |s| <= k
    ensures |v| == k
  {
    seq(k, i requires 0 <= i < k => if i < |s| then Holds(s[i]) else Vacant)
  }

  /** Writing the physical slot of logical index `j` writes logical index `j` of the view. */
  lemma {:induction false} ViewUpdate<T>(a: seq<Slot<T>>, left: nat, j: nat, x: Slot<T>)
    requires left < |a| && j < |a|
    ensures View(a[Phys(left, j, |a|) := x], left) == View(a, left)[j := x]
  {
    var k, p := |a|, Phys(left, j, |a|);
    var v, w := View(a[p := x], left), View(a, left)[j := x];
    forall i | 0 <= i < k ensures v[i] == w[i] {
      if Phys(left, i, k) == p {
        PhysInjective(left, i, j, k);
      }
    }
  }

  /** Exchanging two physical slots exchanges the logical indices they hold. */
  lemma {:induction false} ViewSwap<T>(a: seq<Slot<T>>, left: nat, i: nat, j: nat)
    requires left < |a| && i < |a| && j < |a|
    ensures View(Swap(a, Phys(left, i, |a|), Phys(left, j, |a|)), left) == Swap(View(a, left), i, j)
  {
    var k := |a|;
    var p, q := Phys(left, i, k), Phys(left, j, k);
    ViewUpdate(a, left, i, a[q]);
    ViewUpdate(a[p := a[q]], left, j, a[p]);
  }

  /** Moving the start one slot back puts the last logical slot in front. */
  lemma {:induction false} ViewStepBack<T>(a: seq<Slot<T>>, left: nat)
    requires left < |a|
    ensures View(a, CalcModInd(left - 1, |a|)) == [View(a, left)[|a| - 1]] + View(a, left)[..|a| - 1]
  {
    var k := |a|;
    var l2 := CalcModInd(left - 1, k);
    CalcModIndWindow(left - 1, k);
    CalcModIndWindow(left + k - 1, k);
    var v, w := View(a, l2), [View(a, left)[k - 1]] + View(a, left)[..k - 1];
    forall i | 0 <= i < k ensures v[i] == w[i] {
      CalcModIndWindow(l2 + i, k);
      if i > 0 {
        CalcModIndWindow(left + i - 1, k);
      }
    }
  }

  /** Moving the start one slot forward puts the first logical slot last. */
  lemma {:induction false} ViewStepForward<T>(a: seq<Slot<T>>, left: nat)
    requires left < |a|
    ensures View(a, CalcModInd(left + 1, |a|)) == View(a, left)[1..] + [View(a, left)[0]]
  {
    var k := |a|;
    var l2 := CalcModInd(left + 1, k);
    CalcModIndWindow(left + 1, k);
    CalcModIndWindow(left, k);
    var v, w := View(a, l2), View(a, left)[1..] + [View(a, left)[0]];
    forall i | 0 <= i < k ensures v[i] == w[i] {
      CalcModIndWindow(l2 + i, k);
      if i < k - 1 {
        CalcModIndWindow(left + i + 1, k);
      }
    }
  }

  /** A block with no constructed value reads as empty from any start. */
  lemma {:induction false} ViewAllVacant<T>(a: seq<Slot<T>>, left: nat, left2: nat)
    requires left < |a| && left2 < |a|
    requires View(a, left) == Layout([], |a|)
    ensures View(a, left2) == Layout([], |a|)
  {
    var k := |a|;
    forall p | 0 <= p < k ensures a[p] == Vacant {
      var i := PhysPreimage(left, p, k);
      assert View(a, left)[i] == Vacant;
    }
  }

  lemma {:induction false} LayoutPushBack<T>(s: seq<T>, x: T, k: nat)
    requires |s| < k
    ensures Layout(s, k)[|s| := Holds(x)] == Layout(s + [x], k)
  {
  }

  lemma {:induction false} LayoutPopBack<T>(s: seq<T>, k: nat)
    requires 0 < |s| <= k
    ensures Layout(s, k)[|s| - 1 := Vacant] == Layout(s[..|s| - 1], k)
  {
  }

  lemma {:induction false} LayoutPushFront<T>(s: seq<T>, x: T, k: nat)
    requires |s| < k
    ensures ([Layout(s, k)[k - 1]] + Layout(s, k)[..k - 1])[0 := Holds(x)] == Layout([x] + s, k)
  {
  }

  lemma {:induction false} LayoutPopFront<T>(s: seq<T>, k: nat)
    requires 0 < |s| <= k
    ensures Layout(s, k)[0 := Vacant][1..] + [Vacant] == Layout(s[1..], k)
  {
  }

  /** Carrying a live element over live elements carries it in the layout too. */
  lemma {:induction false} LayoutMove<T>(s: seq<T>, a: nat, b: nat, k: nat)
    requires a < |s| && b < |s| && |s| <= k
    ensures Move(Layout(s, k), a, b) == Layout(Move(s, a, b), k)
  {
    var l, r := Move(Layout(s, k), a, b), Layout(Move(s, a, b), k);
    forall i | 0 <= i < k ensures l[i] == r[i] {
      assert Move(Layout(s, k), a, b)[i] == Layout(s, k)[MoveSource(a, b, i)];
      if i < |s| {
        assert Move(s, a, b)[i] == s[MoveSource(a, b, i)];
      }
    }
  }

  /** Constructing the value after the last element keeps the layout, one element longer. */
  lemma {:induction false} PushBackKeepsLayout<T>(a: seq<Slot<T>>, left: nat, s: seq<T>, x: T)
    requires left < |a| && |s| < |a| && View(a, left) == Layout(s, |a|)
    ensures View(a[Phys(left, |s|, |a|) := Holds(x)], left) == Layout(s + [x], |a|)
  {
    ViewUpdate(a, left, |s|, Holds(x));
    LayoutPushBack(s, x, |a|);
  }

  /** Destroying the last element keeps the layout, one element shorter. */
  lemma {:induction false} PopBackKeepsLayout<T>(a: seq<Slot<T>>, left: nat, s: seq<T>)
    requires left < |a| && 0 < |s| <= |a| && View(a, left) == Layout(s, |a|)
    ensures View(a[Phys(left, |s| - 1, |a|) := Vacant], left) == Layout(s[..|s| - 1], |a|)
  {
    ViewUpdate(a, left, |s| - 1, Vacant);
    LayoutPopBack(s, |a|);
  }

  /** Constructing a value one slot before the start, and starting there, keeps the layout. */
  lemma {:induction false} PushFrontKeepsLayout<T>(a: seq<Slot<T>>, left: nat, s: seq<T>, x: T)
    requires left < |a| && |s| < |a| && View(a, left) == Layout(s, |a|)
    ensures View(a[CalcModInd(left - 1, |a|) := Holds(x)], CalcModInd(left - 1, |a|)) == Layout([x] + s, |a|)
  {
    var p := CalcModInd(left - 1, |a|);
    ViewStepBack(a, left);
    CalcModIndWindow(p, |a|);
    ViewUpdate(a, p, 0, Holds(x));
    LayoutPushFront(s, x, |a|);
  }

  /** Destroying the first element and starting one slot later keeps the layout. */
  lemma {:induction false} PopFrontKeepsLayout<T>(a: seq<Slot<T>>, left: nat, s: seq<T>)
    requires left < |a| && 0 < |s| <= |a| && View(a, left) == Layout(s, |a|)
    ensures View(a[left := Vacant], CalcModInd(left + 1, |a|)) == Layout(s[1..], |a|)
  {
    CalcModIndWindow(left, |a|);
    ViewUpdate(a, left, 0, Vacant);
    ViewStepForward(a[left := Vacant], left);
    LayoutPopFront(s, |a|);
  }

  /** The layout of `s` after its first `i` elements were destroyed. */
  function Vacated<T>(s: seq<T>, i: nat, k: nat): (v: seq<Slot<T>>)
    requires i <= |s| <= k
    ensures |v| == k
  {
    seq(k, j requires 0 <= j < k => if i <= j < |s| then Holds(s[j]) else Vacant)
  }

  lemma {:induction false} VacatedNone<T>(s: seq<T>, k: nat)
    requires |s| <= k
    ensures Vacated(s, 0, k) == Layout(s, k)
  {
  }

  lemma {:induction false} VacatedAll<T>(s: seq<T>, k: nat)
    requires |s| <= k
    ensures Vacated(s, |s|, k) == Layout([], k)
  {
  }

  /** Destroying the next element in logical order vacates one more slot. */
  lemma {:induction false} DestroyKeepsVacated<T>(a: seq<Slot<T>>, left: nat, s: seq<T>, i: nat)
    requires left < |a| && i < |s| <= |a| && View(a, left) == Vacated(s, i, |a|)
    ensures View(a[Phys(left, i, |a|) := Vacant], left) == Vacated(s, i + 1, |a|)
  {
    ViewUpdate(a, left, i, Vacant);
  }
}
