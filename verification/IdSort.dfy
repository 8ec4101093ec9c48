/** The in-place sort of ID lists: quicksort with an explicit stack, insertion sort for short segments (mdb_midl_sort). */
module IdSort {
  import opened Keys

  const SMALL := 8
  const STACK_SLOTS := 64
  const INT_MAX := 2147483647

  // ---- Permutations and cuts ---------------------------------------------------------------

  ghost predicate Perm(s: seq<nat>, t: seq<nat>) { |s| == |t| && multiset(s) == multiset(t) }

  predicate SameOutside(s: seq<nat>, t: seq<nat>, l: nat, r: nat) {
    |s| == |t| && forall p :: 0 <= p < |s| && (p < l || p > r) ==> s[p] == t[p]
  }

  function Swapped(s: seq<nat>, i: nat, j: nat): seq<nat>
    requires i < |s| && j < |s|
  {
    s[i := s[j]][j := s[i]]
  }

  lemma SwapPerm(s: seq<nat>, i: nat, j: nat)
    requires i < |s| && j < |s|
    ensures Perm(s, Swapped(s, i, j))
  {
  }

  predicate RangeSorted(s: seq<nat>, l: nat, r: nat)
    requires r < |s|
  {
    forall p, q :: l <= p < q <= r ==> s[p] >= s[q]
  }

  /** Between `lo` and `hi`, nothing after position `c` is above anything up to it. */
  ghost predicate Cut(s: seq<nat>, lo: nat, hi: nat, c: int)
    requires hi < |s|
  {
    forall p, q :: lo <= p <= c < q <= hi ==> s[p] >= s[q]
  }

  lemma Parts(s: seq<nat>, l: nat, r: nat)
    requires l <= r + 1 <= |s|
    ensures multiset(s) == multiset(s[..l]) + multiset(s[l..r+1]) + multiset(s[r+1..])
  {
    assert s[..r+1] == s[..l] + s[l..r+1];
    assert s == s[..r+1] + s[r+1..];
  }

  /** What changes only within a segment, and only in order, holds the same ids there. */
  lemma SegmentContents(s: seq<nat>, t: seq<nat>, l: nat, r: nat)
    requires Perm(s, t) && SameOutside(s, t, l, r) && l <= r + 1 <= |s|
    ensures multiset(s[l..r+1]) == multiset(t[l..r+1])
  {
    var x, y := s[l..r+1], t[l..r+1];
    Parts(s, l, r);
    Parts(t, l, r);
    assert s[..l] == t[..l] && s[r+1..] == t[r+1..];
    forall v ensures multiset(x)[v] == multiset(y)[v] {
      assert multiset(s)[v] == (multiset(s[..l]) + multiset(x) + multiset(s[r+1..]))[v];
      assert multiset(t)[v] == (multiset(t[..l]) + multiset(y) + multiset(t[r+1..]))[v];
    }
  }

  lemma SegmentMember(s: seq<nat>, t: seq<nat>, l: nat, r: nat, p: nat) returns (m: nat)
    requires Perm(s, t) && SameOutside(s, t, l, r) && l <= p <= r < |s|
    ensures l <= m <= r && s[m] == t[p]
  {
    var x, y := s[l..r+1], t[l..r+1];
    SegmentContents(s, t, l, r);
    assert y[p - l] in y && t[p] in multiset(y);
    assert t[p] in multiset(x);
    var k :| 0 <= k < |x| && x[k] == t[p];
    m := l + k;
  }

  /** A permutation within a segment keeps every cut that is not inside it. */
  lemma CutKept(s: seq<nat>, t: seq<nat>, lo: nat, hi: nat, l: nat, r: nat, c: int)
    requires Perm(s, t) && SameOutside(s, t, l, r) && lo <= l && r <= hi < |s| && (c < l || c >= r)
    requires Cut(s, lo, hi, c)
    ensures Cut(t, lo, hi, c)
  {
    forall p, q | lo <= p <= c < q <= hi ensures t[p] >= t[q] {
      var p', q' := p, q;
      if l <= p <= r { p' := SegmentMember(s, t, l, r, p); }
      if l <= q <= r { q' := SegmentMember(s, t, l, r, q); }
      assert s[p'] >= s[q'];
    }
  }

  // ---- Insertion sort ----------------------------------------------------------------------

  /** Shift ids below `id` up by one from position `j`; the hole they leave is where it belongs. It may look as far
      down as `first`, but what stands before the segment stops it. */
  method Insert(a: array<nat>, first: nat, l: nat, j: nat)
    requires 0 < first <= l < j < a.Length
    requires l > first ==> forall q :: l <= q <= j ==> a[l-1] >= a[q]
    requires RangeSorted(a[..], l, j - 1)
    modifies a
    ensures Perm(old(a[..]), a[..]) && SameOutside(old(a[..]), a[..], l, j) && RangeSorted(a[..], l, j)
  {
    hide Perm, SameOutside, RangeSorted;
    ghost var start := a[..];
    var id := a[j];
    var i: int := j - 1;
    while i >= first && a[i] < id
      invariant l - 1 <= i < j
      invariant forall p :: 0 <= p <= i || j < p < a.Length ==> a[p] == start[p]
      invariant forall p :: i + 1 < p <= j ==> a[p] == start[p-1]
      invariant forall p :: i + 1 <= p < j ==> start[p] < id
      decreases i - first
    {
      a[i+1] := a[i];
      i := i - 1;
    }
    a[i+1] := id;
    Inserted(start, a[..], i + 1, l, j);
  }

  lemma Inserted(s: seq<nat>, t: seq<nat>, h: nat, l: nat, j: nat)
    requires l <= h <= j < |s| && |t| == |s| && t[h] == s[j]
    requires forall p :: 0 <= p < h || j < p < |s| ==> t[p] == s[p]
    requires forall p :: h < p <= j ==> t[p] == s[p-1]
    requires RangeSorted(s, l, j) || (j > l && RangeSorted(s, l, j - 1))
    requires (h > l ==> s[h-1] >= s[j]) && forall p :: h <= p < j ==> s[p] < s[j]
    ensures Perm(s, t) && SameOutside(s, t, l, j) && RangeSorted(t, l, j)
  {
    assert t == Hole(s, h, j);
    HolePerm(s, h, j);
    HoleSorted(s, h, l, j);
  }

  lemma {:induction false} HolePerm(s: seq<nat>, h: nat, j: nat)
    requires h <= j < |s|
    ensures Perm(s, Hole(s, h, j))
    decreases j - h
  {
    hide Perm;
    if h == j {
      PermSelf(s);
      assert Hole(s, j, j) == s;
    } else {
      HolePerm(s, h + 1, j);
      var g := Hole(s, h + 1, j);
      SwapPerm(g, h, h + 1);
      assert Swapped(g, h, h + 1) == Hole(s, h, j);
      PermChain(s, g, Hole(s, h, j));
    }
  }

  lemma HoleSorted(s: seq<nat>, h: nat, l: nat, j: nat)
    requires l <= h <= j < |s| && forall p, q :: l <= p < q < j ==> s[p] >= s[q]
    requires (h > l ==> s[h-1] >= s[j]) && forall p :: h <= p < j ==> s[p] < s[j]
    ensures SameOutside(s, Hole(s, h, j), l, j)
    ensures forall p, q :: l <= p < q <= j ==> Hole(s, h, j)[p] >= Hole(s, h, j)[q]
  {
  }

  lemma PermSelf(s: seq<nat>)
    ensures Perm(s, s)
  {
  }

  /** The sequence with the element at `j` moved down to `h`. */
  function Hole(s: seq<nat>, h: nat, j: nat): (t: seq<nat>)
    requires h <= j < |s|
    ensures |t| == |s|
    ensures forall p :: 0 <= p < |s| ==> t[p] == if p == h then s[j] else if h < p <= j then s[p-1] else s[p]
  {
    s[..h] + [s[j]] + s[h..j] + s[j+1..]
  }

  method InsertionSort(a: array<nat>, first: nat, l: nat, r: nat)
    requires 0 < first <= l <= r + 1 && r < a.Length
    requires l > first ==> forall q :: l <= q <= r ==> a[l-1] >= a[q]
    modifies a
    ensures Perm(old(a[..]), a[..]) && SameOutside(old(a[..]), a[..], l, r) && RangeSorted(a[..], l, r)
  {
    hide Perm;
    ghost var start := a[..];
    PermSelf(start);
    var j := l + 1;
    while j <= r
      invariant l + 1 <= j && (j <= r + 1 || r < l + 1)
      invariant Perm(start, a[..]) && SameOutside(start, a[..], l, r)
      invariant j - 1 > r || RangeSorted(a[..], l, j - 1)
      invariant j - 1 > r ==> r < l
      invariant l > first ==> forall q :: l <= q <= r ==> a[l-1] >= a[q]
    {
      ghost var before := a[..];
      Insert(a, first, l, j);
      PermChain(start, before, a[..]);
      if l > first {
        forall q | l <= q <= r ensures a[l-1] >= a[q] {
          if q <= j { var m := SegmentMember(before, a[..], l, j, q); }
        }
      }
      j := j + 1;
    }
  }

  lemma PermChain(s: seq<nat>, t: seq<nat>, u: seq<nat>)
    requires Perm(s, t) && Perm(t, u)
    ensures Perm(s, u)
  {
  }

  // ---- Partition ---------------------------------------------------------------------------

  method Swap(a: array<nat>, i: nat, j: nat)
    requires i < a.Length && j < a.Length
    modifies a
    ensures Perm(old(a[..]), a[..])
    ensures a[i] == old(a[j]) && a[j] == old(a[i]) && forall p :: 0 <= p < a.Length && p != i && p != j ==> a[p] == old(a[p])
    ensures forall l: nat, r: nat :: l <= i <= r && l <= j <= r ==> SameOutside(old(a[..]), a[..], l, r)
  {
    ghost var s := a[..];
    SwapPerm(s, i, j);
    a[i], a[j] := a[j], a[i];
    assert a[..] == Swapped(s, i, j);
  }

  /** Median of the left, middle and right id to position `l + 1`, larger one to `l`, smaller one to `r`. */
  method MedianOfThree(a: array<nat>, l: nat, r: nat)
    requires l + SMALL <= r < a.Length
    modifies a
    ensures Perm(old(a[..]), a[..]) && SameOutside(old(a[..]), a[..], l, r)
    ensures a[l] >= a[l+1] >= a[r]
  {
    hide Perm;
    ghost var s0 := a[..];
    Swap(a, (l + r) / 2, l + 1);
    ghost var s1 := a[..];
    PermSelf(s1);
    if a[l] < a[r] {
      Swap(a, l, r);
    }
    ghost var s2 := a[..];
    PermSelf(s2);
    if a[l+1] < a[r] {
      Swap(a, l + 1, r);
    }
    ghost var s3 := a[..];
    PermSelf(s3);
    if a[l] < a[l+1] {
      Swap(a, l, l + 1);
    }
    PermChain(s0, s1, s2);
    PermChain(s0, s2, s3);
    PermChain(s0, s3, a[..]);
  }

  /** Exchange ids on the wrong sides of the median at `l + 1` until the two scans cross. */
  method CrossScan(a: array<nat>, l: nat, r: nat) returns (i: nat, j: nat)
    requires 0 < l && l + SMALL <= r < a.Length && a[l] >= a[l+1] >= a[r]
    modifies a
    ensures Perm(old(a[..]), a[..]) && SameOutside(old(a[..]), a[..], l, r) && a[l+1] == old(a[l+1])
    ensures l < j < i <= r && a[j] >= a[l+1]
    ensures forall p :: l <= p < i ==> a[p] >= a[l+1]
    ensures forall q :: j < q <= r ==> a[q] <= a[l+1]
  {
    hide Perm, SameOutside;
    ghost var start := a[..];
    PermSelf(start);
    SameSelf(start, l, r);
    i, j := l + 1, r;
    var id := a[l+1];
    while true
      invariant l + 1 <= i <= j <= r && (i == j ==> l + 1 < j < r) && a[l+1] == id
      invariant forall p :: l <= p <= i ==> a[p] >= id
      invariant forall q :: j <= q <= r ==> a[q] <= id
      invariant Perm(start, a[..]) && SameOutside(start, a[..], l, r)
      decreases r + j - i
    {
      ghost var i0, j0, before := i, j, a[..];
      i := ScanUp(a, i, r, id, if i < j then j else i + 1);
      j := ScanDown(a, j, id, if i0 < j0 then i0 else i0 - 1);
      if j < i {
        break;
      }
      Swap(a, i, j);
      PermChain(start, before, a[..]);
      SameChain(start, before, a[..], l, r, l, r);
    }
  }

  /** Split a segment around the median: up to `i` nothing below it, from `j` on nothing above it. */
  method Partition(a: array<nat>, l: nat, r: nat) returns (i: nat, j: nat)
    requires 0 < l && l + SMALL <= r < a.Length
    modifies a
    ensures Perm(old(a[..]), a[..]) && SameOutside(old(a[..]), a[..], l, r)
    ensures l < j < i <= r
    ensures forall p :: l <= p < i ==> a[p] >= a[j]
    ensures forall q :: j <= q <= r ==> a[q] <= a[j]
  {
    hide Perm, SameOutside;
    ghost var start := a[..];
    MedianOfThree(a, l, r);
    ghost var middle := a[..];
    i, j := CrossScan(a, l, r);
    ghost var before := a[..];
    Swap(a, l + 1, j);
    PermChain(start, middle, before);
    PermChain(start, before, a[..]);
    SameChain(start, middle, before, l, r, l, r);
    SameChain(start, before, a[..], l, r, l, r);
  }

  /** The next position after `i` whose id is not above the median; `stop` is one at the latest. */
  method ScanUp(a: array<nat>, i0: nat, r: nat, id: nat, ghost stop: nat) returns (i: nat)
    requires i0 < stop <= r < a.Length && a[stop] <= id
    ensures i0 < i <= stop && a[i] <= id && forall p :: i0 < p < i ==> a[p] > id
  {
    i := i0 + 1;
    while a[i] > id
      invariant i0 < i <= stop && forall p :: i0 < p < i ==> a[p] > id
      decreases stop - i
    {
      i := i + 1;
    }
  }

  method ScanDown(a: array<nat>, j0: nat, id: nat, ghost stop: nat) returns (j: nat)
    requires stop < j0 < a.Length && a[stop] >= id
    ensures stop <= j < j0 && a[j] >= id && forall p :: j < p < j0 ==> a[p] < id
  {
    j := j0 - 1;
    while a[j] < id
      invariant stop <= j < j0 && forall p :: j < p < j0 ==> a[p] < id
      decreases j - stop
    {
      j := j - 1;
    }
  }

  // ---- The segments still to sort ----------------------------------------------------------

  /** A segment from `l` to `r`, empty when `r` is before `l`. */
  datatype Seg = Seg(l: nat, r: nat) {
    function Size(): nat { if l <= r then r + 1 - l else 0 }
  }

  function Pow2(k: nat): nat { if k == 0 then 1 else 2 * Pow2(k - 1) }

  predicate Separate(g: Seg, h: Seg) { g.r < h.l || h.r < g.l }

  predicate InsideAny(segs: seq<Seg>, c: nat) {
    exists k :: 0 <= k < |segs| && segs[k].l <= c < segs[k].r
  }

  ghost predicate SegOK(s: seq<nat>, lo: nat, hi: nat, g: Seg)
    requires hi < |s|
  {
    lo <= g.l <= g.r + 1 <= hi + 1 && Cut(s, lo, hi, g.l - 1) && Cut(s, lo, hi, g.r)
  }

  /** Every place out of order lies inside a pending segment; the one at index k is at most 1/2^k of the list. */
  ghost predicate Pending(s: seq<nat>, lo: nat, hi: nat, segs: seq<Seg>) {
    && hi < |s| && 0 < lo <= hi + 1
    && (forall k :: 0 <= k < |segs| ==> SegOK(s, lo, hi, segs[k]) && segs[k].Size() * Pow2(k) <= hi + 1 - lo)
    && (forall j, k :: 0 <= j < k < |segs| ==> Separate(segs[j], segs[k]))
    && (forall c :: lo <= c < hi ==> Cut(s, lo, hi, c) || InsideAny(segs, c))
  }

  function Weight(segs: seq<Seg>): nat {
    if segs == [] then 0 else Weight(segs[..|segs|-1]) + 2 * segs[|segs|-1].Size() + 1
  }

  lemma WholeListPending(s: seq<nat>, lo: nat, hi: nat)
    requires 0 < lo <= hi + 1 && hi < |s|
    ensures Pending(s, lo, hi, [Seg(lo, hi)])
  {
    var segs := [Seg(lo, hi)];
    assert Pow2(0) == 1;
    forall c | lo <= c < hi ensures InsideAny(segs, c) { assert segs[0].l <= c < segs[0].r; }
  }

  lemma AllCuts(s: seq<nat>, lo: nat, hi: nat)
    requires Pending(s, lo, hi, [])
    ensures RangeSorted(s, lo, hi)
  {
    forall p, q | lo <= p < q <= hi ensures s[p] >= s[q] {
      assert Cut(s, lo, hi, p) || InsideAny([], p);
    }
  }

  /** What holds of the other segments and places is kept when one segment is permuted. */
  lemma OthersKept(s: seq<nat>, t: seq<nat>, lo: nat, hi: nat, segs: seq<Seg>, g: Seg, k: nat)
    requires hi < |s| && 0 < lo && Perm(s, t) && SameOutside(s, t, g.l, g.r) && SegOK(s, lo, hi, g)
    requires k < |segs| && SegOK(s, lo, hi, segs[k]) && Separate(segs[k], g)
    ensures SegOK(t, lo, hi, segs[k])
  {
    hide Perm, SameOutside, Cut;
    PermLength(s, t);
    CutKeptAny(s, t, lo, hi, g, segs[k].l - 1);
    CutKeptAny(s, t, lo, hi, g, segs[k].r);
  }

  lemma PermLength(s: seq<nat>, t: seq<nat>)
    requires Perm(s, t)
    ensures |s| == |t|
  {
  }

  lemma CutKeptAny(s: seq<nat>, t: seq<nat>, lo: nat, hi: nat, g: Seg, c: int)
    requires hi < |s| && 0 < lo && Perm(s, t) && SameOutside(s, t, g.l, g.r) && lo <= g.l <= g.r + 1 <= hi + 1
    requires (c < g.l || c >= g.r) && Cut(s, lo, hi, c)
    ensures |t| == |s| && Cut(t, lo, hi, c)
  {
    if g.r < g.l {
      assert s == t;
    } else {
      CutKept(s, t, lo, hi, g.l, g.r, c);
    }
  }

  lemma CutInside(s: seq<nat>, lo: nat, hi: nat, g: Seg, c: nat)
    requires hi < |s| && SegOK(s, lo, hi, g) && RangeSorted(s, g.l, g.r) && g.l <= c < g.r
    ensures Cut(s, lo, hi, c)
  {
    forall p, q | lo <= p <= c < q <= hi ensures s[p] >= s[q] {
      if p < g.l { assert p <= g.l - 1 < q; } else if q > g.r { assert p <= g.r < q; }
    }
  }

  /** A sorted segment is done. */
  lemma AfterInsertion(s: seq<nat>, t: seq<nat>, lo: nat, hi: nat, segs: seq<Seg>, g: Seg)
    requires Pending(s, lo, hi, segs + [g]) && Perm(s, t) && SameOutside(s, t, g.l, g.r) && g.r < |t| && RangeSorted(t, g.l, g.r)
    ensures Pending(t, lo, hi, segs)
  {
    hide Perm, SameOutside, Cut, Separate;
    PermLength(s, t);
    var all := segs + [g];
    assert all[|segs|] == g;
    forall k | 0 <= k < |segs| ensures SegOK(t, lo, hi, segs[k]) && segs[k].Size() * Pow2(k) <= hi + 1 - lo {
      assert all[k] == segs[k] && Separate(all[k], all[|segs|]);
      OthersKept(s, t, lo, hi, all, g, k);
    }
    forall j, k | 0 <= j < k < |segs| ensures Separate(segs[j], segs[k]) { assert all[j] == segs[j] && all[k] == segs[k]; }
    CutKeptAny(s, t, lo, hi, g, g.l - 1);
    CutKeptAny(s, t, lo, hi, g, g.r);
    forall c | lo <= c < hi ensures Cut(t, lo, hi, c) || InsideAny(segs, c) {
      if g.l <= c < g.r {
        CutInside(t, lo, hi, g, c);
      } else if Cut(s, lo, hi, c) {
        CutKeptAny(s, t, lo, hi, g, c);
      } else {
        assert InsideAny(all, c);
        var k :| 0 <= k < |all| && all[k].l <= c < all[k].r;
        assert all[k] == segs[k];
      }
    }
  }

  /** The places between the two parts of a partitioned segment are in order. */
  lemma PartsCut(t: seq<nat>, lo: nat, hi: nat, g: Seg, i: nat, j: nat, c: nat)
    requires hi < |t| && SegOK(t, lo, hi, g) && g.l < j < i <= g.r && j - 1 <= c <= i - 1
    requires forall p :: g.l <= p < i ==> t[p] >= t[j]
    requires forall q :: j <= q <= g.r ==> t[q] <= t[j]
    ensures Cut(t, lo, hi, c)
  {
    forall p, q | lo <= p <= c < q <= hi ensures t[p] >= t[q] {
      if p < g.l {
        assert p <= g.l - 1 < q;
      } else if q > g.r {
        assert p <= g.r < q;
      } else {
        assert t[p] >= t[j] >= t[q];
      }
    }
  }

  lemma AfterPartition(s: seq<nat>, t: seq<nat>, lo: nat, hi: nat, segs: seq<Seg>, g: Seg, i: nat, j: nat, big: Seg, small: Seg)
    requires Pending(s, lo, hi, segs + [g]) && Perm(s, t) && SameOutside(s, t, g.l, g.r)
    requires g.l < j < i <= g.r < |t|
    requires forall p :: g.l <= p < i ==> t[p] >= t[j]
    requires forall q :: j <= q <= g.r ==> t[q] <= t[j]
    requires (big == Seg(g.l, j - 1) && small == Seg(i, g.r)) || (big == Seg(i, g.r) && small == Seg(g.l, j - 1))
    requires small.Size() <= big.Size()
    ensures Pending(t, lo, hi, segs + [big, small])
  {
    hide Perm, SameOutside, Cut, Separate, Pow2;
    PermLength(s, t);
    var all, next := segs + [g], segs + [big, small];
    var n := |segs|;
    assert all[n] == g;
    CutKeptAny(s, t, lo, hi, g, g.l - 1);
    CutKeptAny(s, t, lo, hi, g, g.r);
    PartsCut(t, lo, hi, g, i, j, j - 1);
    PartsCut(t, lo, hi, g, i, j, i - 1);
    PartSizes(g, big, small, n, hi + 1 - lo);
    forall k | 0 <= k < |next| ensures SegOK(t, lo, hi, next[k]) && next[k].Size() * Pow2(k) <= hi + 1 - lo {
      if k < n {
        assert all[k] == segs[k] == next[k] && Separate(all[k], all[n]);
        OthersKept(s, t, lo, hi, all, g, k);
      }
    }
    forall x, y | 0 <= x < y < |next| ensures Separate(next[x], next[y]) {
      if y < n {
        assert all[x] == next[x] && all[y] == next[y];
      } else if x < n {
        assert all[x] == next[x] && Separate(all[x], all[n]);
        SeparateParts(all[x], g, big, small);
      } else {
        PartsSeparate(g, big, small, i, j);
      }
    }
    forall c | lo <= c < hi ensures Cut(t, lo, hi, c) || InsideAny(next, c) {
      if g.l <= c < g.r {
        if j - 1 <= c <= i - 1 {
          PartsCut(t, lo, hi, g, i, j, c);
        } else {
          assert next[n] == big && next[n+1] == small;
          assert (next[n].l <= c < next[n].r) || (next[n+1].l <= c < next[n+1].r);
        }
      } else if Cut(s, lo, hi, c) {
        CutKeptAny(s, t, lo, hi, g, c);
      } else {
        assert InsideAny(all, c);
        var k :| 0 <= k < |all| && all[k].l <= c < all[k].r;
        assert all[k] == next[k];
      }
    }
  }

  lemma SeparateParts(h: Seg, g: Seg, big: Seg, small: Seg)
    requires Separate(h, g) && g.l <= big.l && big.r <= g.r && g.l <= small.l && small.r <= g.r
    ensures Separate(h, big) && Separate(h, small)
  {
  }

  lemma PartsSeparate(g: Seg, big: Seg, small: Seg, i: nat, j: nat)
    requires g.l < j < i <= g.r
    requires (big == Seg(g.l, j - 1) && small == Seg(i, g.r)) || (big == Seg(i, g.r) && small == Seg(g.l, j - 1))
    ensures Separate(big, small)
  {
  }

  /** The larger part takes its segment's place; the smaller one is at most half as long. */
  lemma PartSizes(g: Seg, big: Seg, small: Seg, k: nat, n: nat)
    requires g.Size() * Pow2(k) <= n && small.Size() <= big.Size() && small.Size() + big.Size() <= g.Size()
    ensures big.Size() * Pow2(k) <= n && small.Size() * Pow2(k + 1) <= n
  {
    Times(big.Size(), g.Size(), Pow2(k));
    Times(2 * small.Size(), g.Size(), Pow2(k));
    assert small.Size() * (2 * Pow2(k)) == 2 * small.Size() * Pow2(k);
  }

  lemma Times(m: nat, n: nat, k: nat)
    requires m <= n
    ensures m * k <= n * k
  {
  }

  /** The stack never needs more than 28 segments. */
  lemma {:induction false} StackDepth(size: nat, k: nat)
    requires size > SMALL && size * Pow2(k) <= INT_MAX
    ensures k < 28
  {
    if k >= 28 {
      Pow2Grows(28, k);
      assert Pow2(28) == 268435456 by { Pow2Value(); }
      Times(SMALL + 1, size, Pow2(k));
    }
  }

  lemma {:induction false} Pow2Grows(j: nat, k: nat)
    requires j <= k
    ensures Pow2(j) <= Pow2(k)
  {
    if j < k { Pow2Grows(j, k - 1); }
  }

  lemma Pow2Value()
    ensures Pow2(28) == 268435456
  {
    assert Pow2(7) == 128;
    assert Pow2(14) == 16384;
    assert Pow2(21) == 2097152;
  }

  lemma WeightParts(segs: seq<Seg>, g: Seg, big: Seg, small: Seg)
    ensures Weight(segs + [g]) == Weight(segs) + 2 * g.Size() + 1
    ensures Weight(segs + [big, small]) == Weight(segs) + 2 * big.Size() + 2 * small.Size() + 2
  {
    assert (segs + [g])[..|segs|] == segs;
    var both := segs + [big, small];
    assert both[..|segs|+1] == segs + [big] && (segs + [big])[..|segs|] == segs;
  }

  ghost predicate OnStack(stack: seq<nat>, segs: seq<Seg>) {
    |stack| == STACK_SLOTS && |segs| <= 28
    && forall k :: 0 <= k < |segs| ==> stack[2 * k + 1] == segs[k].l && stack[2 * k + 2] == segs[k].r
  }

  /** Sort the list whose count stands at `at`: the same ids, none above the one before it. */
  method Sort(a: array<nat>, at: nat)
    requires at < a.Length && at + a[at] < a.Length && a[at] <= INT_MAX
    modifies a
    ensures var n := old(a[at]);
            && Perm(old(a[..]), a[..]) && SameOutside(old(a[..]), a[..], at + 1, at + n)
            && RangeSorted(a[..], at + 1, at + n)
  {
    hide Perm, SameOutside, Pending, RangeSorted, Weight, Cut, OnStack, Pow2;
    var lo, hi := at + 1, at + a[at];
    var istack := new nat[STACK_SLOTS];
    var jstack: nat, l: nat, ir: nat := 0, lo, hi;
    ghost var start, segs: seq<Seg> := a[..], [];
    assert [] + [Seg(lo, hi)] == [Seg(lo, hi)];
    WholeListPending(a[..], lo, hi);
    StackEmpty(istack[..]);
    PermSelf(start);
    SameSelf(start, lo, hi);
    while true
      invariant Pending(a[..], lo, hi, segs + [Seg(l, ir)]) && OnStack(istack[..], segs) && jstack == 2 * |segs|
      invariant Perm(start, a[..]) && SameOutside(start, a[..], lo, hi)
      decreases Weight(segs + [Seg(l, ir)])
    {
      ghost var before, g := a[..], Seg(l, ir);
      CurrentOK(before, lo, hi, segs, g);
      if ir < l + SMALL {
        InsertionSort(a, lo, l, ir);
        AfterInsertion(before, a[..], lo, hi, segs, g);
        SameChain(start, before, a[..], lo, hi, l, ir);
        PermChain(start, before, a[..]);
        if jstack == 0 {
          break;
        }
        PopStack(istack[..], segs);
        ir := istack[jstack];
        jstack := jstack - 1;
        l := istack[jstack];
        jstack := jstack - 1;
        PopWeight(segs, g);
        assert segs[..|segs|-1] + [Seg(l, ir)] == segs;
        segs := segs[..|segs|-1];
      } else {
        var i, j := Partition(a, l, ir);
        SameChain(start, before, a[..], lo, hi, l, ir);
        PermChain(start, before, a[..]);
        StackDepth(g.Size(), |segs|);
        ghost var left, right := Seg(l, j - 1), Seg(i, ir);
        jstack := jstack + 2;
        if ir - i + 1 >= j - l {
          AfterPartition(before, a[..], lo, hi, segs, g, i, j, right, left);
          WeightParts(segs, g, right, left);
          assert segs + [right, left] == (segs + [right]) + [left];
          PushStack(istack[..], segs, right);
          istack[jstack] := ir;
          istack[jstack-1] := i;
          ir := j - 1;
          segs := segs + [right];
        } else {
          AfterPartition(before, a[..], lo, hi, segs, g, i, j, left, right);
          WeightParts(segs, g, left, right);
          assert segs + [left, right] == (segs + [left]) + [right];
          PushStack(istack[..], segs, left);
          istack[jstack] := j - 1;
          istack[jstack-1] := l;
          l := i;
          segs := segs + [left];
        }
      }
    }
    assert segs == [];
    AllCuts(a[..], lo, hi);
  }

  lemma StackEmpty(stack: seq<nat>)
    requires |stack| == STACK_SLOTS
    ensures OnStack(stack, [])
  {
  }

  lemma PushStack(stack: seq<nat>, segs: seq<Seg>, g: Seg)
    requires OnStack(stack, segs) && |segs| < 28
    ensures |stack| == STACK_SLOTS
    ensures OnStack(stack[2 * |segs| + 2 := g.r][2 * |segs| + 1 := g.l], segs + [g])
  {
  }

  lemma PopStack(stack: seq<nat>, segs: seq<Seg>)
    requires OnStack(stack, segs) && segs != []
    ensures var k := |segs| - 1;
            |stack| == STACK_SLOTS && k < 28 && stack[2 * k + 2] == segs[k].r && stack[2 * k + 1] == segs[k].l
            && OnStack(stack, segs[..k])
  {
  }

  lemma SameSelf(s: seq<nat>, l: nat, r: nat)
    ensures SameOutside(s, s, l, r)
  {
  }

  lemma SameChain(s: seq<nat>, t: seq<nat>, u: seq<nat>, lo: nat, hi: nat, l: nat, r: nat)
    requires SameOutside(s, t, lo, hi) && SameOutside(t, u, l, r) && lo <= l && r <= hi
    ensures SameOutside(s, u, lo, hi)
  {
  }

  /** What the pending segments say of the one at hand. */
  lemma CurrentOK(s: seq<nat>, lo: nat, hi: nat, segs: seq<Seg>, g: Seg)
    requires Pending(s, lo, hi, segs + [g])
    ensures hi < |s| && 0 < lo <= g.l <= g.r + 1 <= hi + 1 && g.Size() * Pow2(|segs|) <= hi + 1 - lo
    ensures g.l > lo ==> forall q :: g.l <= q <= g.r ==> s[g.l-1] >= s[q]
  {
    assert (segs + [g])[|segs|] == g;
  }

  lemma PopWeight(segs: seq<Seg>, g: Seg)
    ensures Weight(segs) < Weight(segs + [g])
  {
    assert (segs + [g])[..|segs|] == segs;
  }
}
