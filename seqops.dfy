/** Sequence operations that the node buffer and the list are specified with. */
module SeqOps {

  /** `s` with `x` placed at index `i`, the elements from `i` on moving up by one. */
  function Ins<X>(s: seq<X>, i: nat, x: X): (r: seq<X>)
    requires i <= |s|
    ensures |r| == |s| + 1 && r[i] == x
    ensures forall j :: 0 <= j < i ==> r[j] == s[j]
    ensures forall j :: i < j < |r| ==> r[j] == s[j - 1]
  {
    s[..i] + [x] + s[i..]
  }

  /** `s` without its element at index `i`. */
  function Remove<X>(s: seq<X>, i: nat): (r: seq<X>)
    requires i < |s|
    ensures |r| == |s| - 1
    ensures forall j :: 0 <= j < i ==> r[j] == s[j]
    ensures forall j :: i <= j < |r| ==> r[j] == s[j + 1]
  {
    s[..i] + s[i + 1..]
  }

  /** `s` with the elements at `i` and `j` exchanged. */
  function Swap<X>(s: seq<X>, i: nat, j: nat): (r: seq<X>)
    requires i < |s| && j < |s|
    ensures |r| == |s| && r[i] == s[j] && r[j] == s[i]
    ensures forall m :: 0 <= m < |s| && m != i && m != j ==> r[m] == s[m]
  {
    s[i := s[j]][j := s[i]]
  }

  /** Where the element that `Move(s, a, b)` holds at index `i` came from. */
  function MoveSource(a: nat, b: nat, i: nat): nat
  {
    if i == b then a
    else if a <= b && a <= i < b then i + 1
    else if b < a && b < i <= a then i - 1
    else i
  }

  /**
   * `s` with its element at `a` carried to index `b`; the elements it passes
   * over each shift one place towards `a`. This is what a run of adjacent
   * swaps starting at `a` and ending at `b` does.
   */
  function Move<X>(s: seq<X>, a: nat, b: nat): (r: seq<X>)
    requires a < |s| && b < |s|
    ensures |r| == |s|
    ensures forall i :: 0 <= i < |s| ==> r[i] == s[MoveSource(a, b, i)]
  {
    seq(|s|, i requires 0 <= i < |s| => s[MoveSource(a, b, i)])
  }

  /** Carrying an element from `a` to `b` is removing it and inserting it again at `b`. */
  lemma {:induction false} MoveIsReinsertion<X>(s: seq<X>, a: nat, b: nat)
    requires a < |s| && b < |s|
    ensures Move(s, a, b) == Ins(Remove(s, a), b, s[a])
  {
    assert forall i :: 0 <= i < |s| ==> Move(s, a, b)[i] == Ins(Remove(s, a), b, s[a])[i];
  }

  /** Carrying an element one step further right is one more adjacent swap. */
  lemma {:induction false} MoveOneMoreRight<X>(s: seq<X>, a: nat, b: nat)
    requires a <= b && b + 1 < |s|
    ensures Move(s, a, b + 1) == Swap(Move(s, a, b), b, b + 1)
  {
    var l, r := Move(s, a, b + 1), Swap(Move(s, a, b), b, b + 1);
    forall i | 0 <= i < |s| ensures l[i] == r[i] {
      assert l[i] == s[MoveSource(a, b + 1, i)];
      assert Move(s, a, b)[i] == s[MoveSource(a, b, i)];
      if i == b {
        assert Move(s, a, b)[b + 1] == s[MoveSource(a, b, b + 1)];
      } else if i == b + 1 {
        assert Move(s, a, b)[b] == s[MoveSource(a, b, b)];
      }
    }
  }

  /** Carrying an element one step further left is one more adjacent swap. */
  lemma {:induction false} MoveOneMoreLeft<X>(s: seq<X>, a: nat, b: nat)
    requires 0 < b <= a < |s|
    ensures Move(s, a, b - 1) == Swap(Move(s, a, b), b - 1, b)
  {
    var l, r := Move(s, a, b - 1), Swap(Move(s, a, b), b - 1, b);
    forall i | 0 <= i < |s| ensures l[i] == r[i] {
      assert l[i] == s[MoveSource(a, b - 1, i)];
      assert Move(s, a, b)[i] == s[MoveSource(a, b, i)];
      if i == b {
        assert Move(s, a, b)[b - 1] == s[MoveSource(a, b, b - 1)];
      } else if i == b - 1 {
        assert Move(s, a, b)[b] == s[MoveSource(a, b, b)];
      }
    }
  }

  /** Carrying an element to where it already is changes nothing. */
  lemma {:induction false} MoveNowhere<X>(s: seq<X>, a: nat)
    requires a < |s|
    ensures Move(s, a, a) == s
  {
    assert forall i :: 0 <= i < |s| ==> Move(s, a, a)[i] == s[MoveSource(a, a, i)];
  }

  /** A new first element carried to `i` is an insertion at `i`. */
  lemma {:induction false} MoveFromFront<X>(s: seq<X>, x: X, i: nat)
    requires i <= |s|
    ensures Move([x] + s, 0, i) == Ins(s, i, x)
  {
    MoveIsReinsertion([x] + s, 0, i);
    assert Remove([x] + s, 0) == s;
  }

  /** A new last element carried to `i` is an insertion at `i`. */
  lemma {:induction false} MoveFromBack<X>(s: seq<X>, x: X, i: nat)
    requires i <= |s|
    ensures Move(s + [x], |s|, i) == Ins(s, i, x)
  {
    MoveIsReinsertion(s + [x], |s|, i);
    assert Remove(s + [x], |s|) == s;
  }

  /** An element carried to the front and then dropped is an element removed. */
  lemma {:induction false} MoveToFrontThenDrop<X>(s: seq<X>, i: nat)
    requires i < |s|
    ensures Move(s, i, 0)[1..] == Remove(s, i)
  {
    MoveIsReinsertion(s, i, 0);
  }

  /** An element carried to the back and then dropped is an element removed. */
  lemma {:induction false} MoveToBackThenDrop<X>(s: seq<X>, i: nat)
    requires i < |s|
    ensures Move(s, i, |s| - 1)[..|s| - 1] == Remove(s, i)
  {
    MoveIsReinsertion(s, i, |s| - 1);
  }

  /** Inserting into the middle part of a concatenation inserts into that part. */
  lemma {:induction false} InsInside<X>(a: seq<X>, b: seq<X>, c: seq<X>, i: nat, x: X)
    requires i <= |b|
    ensures |a| + i <= |a + b + c| && Ins(a + b + c, |a| + i, x) == a + Ins(b, i, x) + c
  {
    var s := a + b + c;
    assert s[..|a| + i] == a + b[..i];
    assert s[|a| + i..] == b[i..] + c;
  }

  /** Removing from the middle part of a concatenation removes from that part. */
  lemma {:induction false} RemoveInside<X>(a: seq<X>, b: seq<X>, c: seq<X>, i: nat)
    requires i < |b|
    ensures |a| + i < |a + b + c| && Remove(a + b + c, |a| + i) == a + Remove(b, i) + c
  {
    var s := a + b + c;
    assert s[..|a| + i] == a + b[..i];
    assert s[|a| + i + 1..] == b[i + 1..] + c;
  }

  /** Removing `n - 1` elements from `p` and then the one at `p` removes `n` from `p`. */
  lemma {:induction false} CutThenRemove<X>(s: seq<X>, p: nat, n: nat)
    requires 0 < n && p + n <= |s|
    ensures p < |s[..p] + s[p + (n - 1)..]|
    ensures Remove(s[..p] + s[p + (n - 1)..], p) == s[..p] + s[p + n..]
  {
    var c := s[..p] + s[p + (n - 1)..];
    assert c[..p] == s[..p];
    assert c[p + 1..] == s[p + n..];
  }

  lemma {:induction false} DropFirst<X>(a: seq<X>, b: seq<X>)
    requires a != []
    ensures (a + b)[1..] == a[1..] + b
  {
  }

  lemma {:induction false} DropLast<X>(a: seq<X>, b: seq<X>)
    requires b != []
    ensures (a + b)[..|a + b| - 1] == a + b[..|b| - 1]
  {
  }

  /** Slicing a concatenation at a point inside its first part. */
  lemma {:induction false} SliceInFirst<X>(a: seq<X>, b: seq<X>, n: nat)
    requires n <= |a|
    ensures (a + b)[..n] == a[..n] && (a + b)[n..] == a[n..] + b
  {
  }

  /** Slicing a concatenation at a point inside its second part. */
  lemma {:induction false} SliceInSecond<X>(a: seq<X>, b: seq<X>, n: nat)
    requires |a| <= n <= |a| + |b|
    ensures (a + b)[..n] == a + b[..n - |a|] && (a + b)[n..] == b[n - |a|..]
  {
  }

  /**
   * Cutting out f[os..ol] and then slicing at p <= os, or at os + i, is
   * slicing `f` itself at p, or at ol + i.
   */
  lemma {:induction false} CutThenSlice<X>(f: seq<X>, os: nat, ol: nat, p: nat, i: nat)
    requires p <= os <= ol && ol + i <= |f|
    ensures os + i <= |f[..os] + f[ol..]|
    ensures (f[..os] + f[ol..])[..p] == f[..p]
    ensures (f[..os] + f[ol..])[os + i..] == f[ol + i..]
  {
    SliceInFirst(f[..os], f[ol..], p);
    SliceInSecond(f[..os], f[ol..], os + i);
  }

  /** Replacing the element at k is splicing the new one in for it. */
  lemma {:induction false} ReplaceIsSplice<X>(s: seq<X>, k: nat, x: X)
    requires k < |s|
    ensures s[k := x] == s[..k] + [x] + s[k + 1..]
  {
  }

  /** Replacing the element at k by x and inserting y after it is splicing [x, y] in for it. */
  lemma {:induction false} ReplaceThenInsert<X>(s: seq<X>, k: nat, x: X, y: X)
    requires k < |s|
    ensures s[k := x][..k + 1] + [y] + s[k := x][k + 1..] == s[..k] + [x, y] + s[k + 1..]
  {
    assert s[k := x][..k + 1] == s[..k] + [x];
    assert s[k := x][k + 1..] == s[k + 1..];
  }

  /** Cutting one more element at the seam of a cut: the cut widens by one. */
  lemma {:induction false} CutOneMore<X>(s: seq<X>, start: nat, m: nat)
    requires start + m < |s|
    ensures var c := s[..start] + s[start + m..];
      start < |c| && c[start] == s[start + m] && c[..start] + c[start + 1..] == s[..start] + s[start + m + 1..]
  {
    var c := s[..start] + s[start + m..];
    assert c[..start] == s[..start];
    assert c[start + 1..] == s[start + m + 1..];
  }

  /** An empty cut leaves the sequence as it was. */
  lemma {:induction false} CutNothing<X>(s: seq<X>, start: nat)
    requires start <= |s|
    ensures s[..start] + s[start..] == s
  {
  }

  /** `s` with the n elements from index a on removed, one at a time at index a. */
  function Drop<X>(s: seq<X>, a: nat, n: nat): (r: seq<X>)
    requires a + n <= |s|
    ensures |r| == |s| - n
    decreases n
  {
    if n == 0 then s else Drop(s, a, n - 1)[..a] + Drop(s, a, n - 1)[a + 1..]
  }

  /** Removing n elements one at a time at index a cuts out s[a..a + n]. */
  lemma {:induction false} DropIsCut<X>(s: seq<X>, a: nat, n: nat)
    requires a + n <= |s|
    ensures Drop(s, a, n) == s[..a] + s[a + n..]
    decreases n
  {
    if n == 0 {
      assert s[..a] + s[a..] == s;
    } else {
      DropIsCut(s, a, n - 1);
      CutOneMore(s, a, n - 1);
    }
  }

  /** What sits at index a, and after it, once n elements from a on are removed. */
  lemma {:induction false} DropAt<X>(s: seq<X>, a: nat, n: nat)
    requires a + n < |s|
    ensures Drop(s, a, n + 1) == Drop(s, a, n)[..a] + Drop(s, a, n)[a + 1..]
    ensures Drop(s, a, n)[a] == s[a + n]
    ensures a + (n + 1) < |s| ==> Drop(s, a, n)[a + 1] == s[a + (n + 1)]
  {
    DropIsCut(s, a, n);
  }
}
