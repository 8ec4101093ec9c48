/** Where mdb_page_split cuts a full page in two.

    Nodes are seen through their sizes: `xs` lists the space of the page's nodes with the
    new node already in place at `newindx`, so it has one element more than the page has keys. */
module SplitPoint {
  function Sum(xs: seq<nat>): nat {
    if xs == [] then 0 else xs[0] + Sum(xs[1..])
  }

  lemma {:induction false} SumAppend(a: seq<nat>, b: seq<nat>)
    ensures Sum(a + b) == Sum(a) + Sum(b)
  {
    if a == [] {
      assert a + b == b;
    } else {
      assert (a + b)[1..] == a[1..] + b;
      SumAppend(a[1..], b);
    }
  }

  lemma SumSnoc(a: seq<nat>, x: nat)
    ensures Sum(a + [x]) == Sum(a) + x
  {
    SumAppend(a, [x]);
    assert [x][1..] == [];
  }

  lemma SumOne(x: nat)
    ensures Sum([]) == 0 && Sum([x]) == x
  {
    assert [x][1..] == [];
  }

  lemma SumSplit(xs: seq<nat>, i: nat)
    requires i <= |xs|
    ensures Sum(xs) == Sum(xs[..i]) + Sum(xs[i..])
  {
    assert xs == xs[..i] + xs[i..];
    SumAppend(xs[..i], xs[i..]);
  }

  lemma SumRemove(xs: seq<nat>, i: nat)
    requires i < |xs|
    ensures Sum(xs) == Sum(xs[..i]) + xs[i] + Sum(xs[i+1..])
  {
    SumSplit(xs, i);
    assert xs[i..][1..] == xs[i+1..];
  }

  lemma {:induction false} SumAtMost(xs: seq<nat>, bound: nat)
    requires forall i :: 0 <= i < |xs| ==> xs[i] <= bound
    ensures Sum(xs) <= |xs| * bound
  {
    if xs != [] { SumAtMost(xs[1..], bound); }
  }

  lemma {:induction false} SumAtLeast(xs: seq<nat>, bound: nat)
    requires forall i :: 0 <= i < |xs| ==> xs[i] >= bound
    ensures Sum(xs) >= |xs| * bound
  {
    if xs != [] { SumAtLeast(xs[1..], bound); }
  }

  /** The scan from the left: the index whose node overflows the page, or `last`. */
  function Forward(xs: seq<nat>, i: nat, acc: nat, last: nat, pmax: nat): (s: nat)
    requires i <= last < |xs|
    ensures i <= s <= last
    decreases last - i
  {
    if acc + xs[i] > pmax || i == last then i else Forward(xs, i + 1, acc + xs[i], last, pmax)
  }

  lemma {:induction false} ForwardStops(xs: seq<nat>, i: nat, acc: nat, last: nat, pmax: nat)
    requires i <= last < |xs| && acc <= pmax
    ensures var s := Forward(xs, i, acc, last, pmax);
            acc + Sum(xs[i..s]) <= pmax && (s < last ==> acc + Sum(xs[i..s+1]) > pmax)
    decreases last - i
  {
    var s := Forward(xs, i, acc, last, pmax);
    if acc + xs[i] > pmax || i == last {
      assert xs[i..i+1] == [xs[i]];
    } else {
      ForwardStops(xs, i + 1, acc + xs[i], last, pmax);
      assert xs[i..s][1..] == xs[i+1..s] && xs[i..s+1][1..] == xs[i+1..s+1];
    }
  }

  /** The scan from the right: one past the index whose node overflows the page, or past `first`. */
  function Backward(xs: seq<nat>, i: nat, acc: nat, first: nat, pmax: nat): (s: nat)
    requires first <= i < |xs|
    ensures first + 1 <= s <= i + 1
    decreases i
  {
    if acc + xs[i] > pmax || i == first then i + 1 else Backward(xs, i - 1, acc + xs[i], first, pmax)
  }

  lemma SumTo(xs: seq<nat>, s: nat, i: nat)
    requires s <= i < |xs|
    ensures Sum(xs[s..i+1]) == Sum(xs[s..i]) + xs[i]
  {
    hide Sum;
    assert xs[s..i+1] == xs[s..i] + [xs[i]];
    SumSnoc(xs[s..i], xs[i]);
  }

  lemma {:induction false} BackwardStops(xs: seq<nat>, i: nat, acc: nat, first: nat, pmax: nat)
    requires first <= i < |xs| && acc <= pmax
    ensures var s := Backward(xs, i, acc, first, pmax);
            Sum(xs[s..i+1]) + acc <= pmax && (s > first + 1 ==> Sum(xs[s-1..i+1]) + acc > pmax)
    decreases i
  {
    hide Sum;
    var s := Backward(xs, i, acc, first, pmax);
    if acc + xs[i] > pmax || i == first {
      assert xs[i..i+1] == [xs[i]];
      assert xs[i+1..i+1] == [];
      SumOne(xs[i]);
    } else {
      BackwardStops(xs, i - 1, acc + xs[i], first, pmax);
      SumTo(xs, s, i);
      SumTo(xs, s - 1, i);
    }
  }

  /** The guard under which the split point is searched for rather than taken by count. */
  predicate Scans(nkeys: nat, newindx: nat, nsize: nat, pmax: nat) {
    nkeys < 32 || nsize > pmax / 16 || newindx >= nkeys
  }

  predicate NodesFit(xs: seq<nat>, bound: nat) {
    forall i :: 0 <= i < |xs| ==> xs[i] <= bound
  }

  function SplitIndex(xs: seq<nat>, newindx: nat, leaf: bool, pmax: nat): (s: nat)
    requires |xs| >= 3 && newindx < |xs| && NodesFit(xs, pmax)
    ensures s < |xs|
  {
    var nkeys := |xs| - 1;
    var half := (nkeys + 1) / 2;
    if !Scans(nkeys, newindx, xs[newindx], pmax) then half
    else if newindx <= half || newindx >= nkeys then
      Forward(xs, 0, 0, if newindx >= nkeys then nkeys - 1 else if leaf then half + 1 else half, pmax)
    else
      Backward(xs, nkeys, 0, half, pmax)
  }

  /** Space used by the right half; on a branch page its first node drops its key (10 bytes remain). */
  function RightUsed(xs: seq<nat>, s: nat, leaf: bool): nat
    requires s < |xs|
  {
    if leaf then Sum(xs[s..]) else 10 + Sum(xs[s+1..])
  }

  /** What a page about to split looks like: its own nodes fit, the new one does not, each takes half at most. */
  predicate Splittable(xs: seq<nat>, newindx: nat, leaf: bool, pmax: nat) {
    && |xs| >= 3 && newindx < |xs|
    && NodesFit(xs, pmax / 2)
    && Sum(xs) - xs[newindx] <= pmax
    && (forall i :: 0 <= i < |xs| ==> xs[i] >= 10)
    && (!leaf ==> newindx >= 1)
  }

  lemma SumDropsBefore(xs: seq<nat>, newindx: nat, lo: nat)
    requires newindx < lo <= |xs|
    ensures Sum(xs[lo..]) + (if newindx > 0 then xs[0] else 0) <= Sum(xs) - xs[newindx]
  {
    SumSplit(xs, lo);
    SumRemove(xs[..lo], newindx);
  }

  lemma SumDropsAfter(xs: seq<nat>, newindx: nat, hi: nat)
    requires hi <= newindx < |xs|
    ensures Sum(xs[..hi]) <= Sum(xs) - xs[newindx]
  {
    SumSplit(xs, hi);
    SumRemove(xs[hi..], newindx - hi);
  }

  /** Where a page is cut: in the middle when it has 32 nodes or more, the new one is small and not last. Otherwise, seen
      from the half that the new node is in, the other half is as long as fits the page, but no longer than needed for the
      new node to stay behind (or before) it. */
  lemma SplitPointIs(xs: seq<nat>, newindx: nat, leaf: bool, pmax: nat)
    requires |xs| >= 3 && newindx < |xs| && NodesFit(xs, pmax)
    ensures var s, nkeys, half := SplitIndex(xs, newindx, leaf, pmax), |xs| - 1, |xs| / 2;
            if nkeys >= 32 && xs[newindx] <= pmax / 16 && newindx < nkeys then s == half
            else if newindx <= half || newindx >= nkeys then
              var last := if newindx >= nkeys then nkeys - 1 else if leaf then half + 1 else half;
              s <= last && Sum(xs[..s]) <= pmax && (s < last ==> Sum(xs[..s+1]) > pmax)
            else
              half < s && Sum(xs[s..]) <= pmax && (s > half + 1 ==> Sum(xs[s-1..]) > pmax)
  {
    hide Sum, Forward, Backward;
    var nkeys, half := |xs| - 1, |xs| / 2;
    if nkeys >= 32 && xs[newindx] <= pmax / 16 && newindx < nkeys {
    } else if newindx <= half || newindx >= nkeys {
      var last := if newindx >= nkeys then nkeys - 1 else if leaf then half + 1 else half;
      ForwardStops(xs, 0, 0, last, pmax);
      var s := Forward(xs, 0, 0, last, pmax);
      assert xs[0..s] == xs[..s] && xs[0..s+1] == xs[..s+1];
    } else {
      BackwardStops(xs, nkeys, 0, half, pmax);
      var s := Backward(xs, nkeys, 0, half, pmax);
      assert xs[s..nkeys+1] == xs[s..] && xs[s-1..nkeys+1] == xs[s-1..];
    }
  }

  /** When the split point is searched for, both halves fit the page. */
  lemma ScannedHalvesFit(xs: seq<nat>, newindx: nat, leaf: bool, pmax: nat)
    requires Splittable(xs, newindx, leaf, pmax)
    requires Scans(|xs| - 1, newindx, xs[newindx], pmax)
    ensures var s := SplitIndex(xs, newindx, leaf, pmax);
            1 <= s && Sum(xs[..s]) <= pmax && RightUsed(xs, s, leaf) <= pmax
  {
    hide Sum, Forward, Backward;
    var s := SplitIndex(xs, newindx, leaf, pmax);
    var nkeys := |xs| - 1;
    if newindx <= |xs| / 2 || newindx >= nkeys {
      var last := if newindx >= nkeys then nkeys - 1 else if leaf then |xs| / 2 + 1 else |xs| / 2;
      assert s == Forward(xs, 0, 0, last, pmax);
      ForwardStops(xs, 0, 0, last, pmax);
      assert xs[0..s] == xs[..s] && xs[0..s+1] == xs[..s+1];
      ForwardRightFits(xs, newindx, leaf, pmax, s, last);
    } else {
      assert s == Backward(xs, nkeys, 0, |xs| / 2, pmax);
      BackwardStops(xs, nkeys, 0, |xs| / 2, pmax);
      assert xs[s..nkeys+1] == xs[s..] && xs[s-1..nkeys+1] == xs[s-1..];
      BackwardLeftFits(xs, newindx, leaf, pmax, s, |xs| / 2);
      RightUsedAtMost(xs, s, leaf);
    }
  }

  lemma RightUsedAtMost(xs: seq<nat>, s: nat, leaf: bool)
    requires 1 <= s < |xs| && xs[s] >= 10
    ensures RightUsed(xs, s, leaf) <= Sum(xs[s..])
  {
    assert xs[s..][1..] == xs[s+1..];
  }

  lemma ForwardRightFits(xs: seq<nat>, newindx: nat, leaf: bool, pmax: nat, s: nat, last: nat)
    requires Splittable(xs, newindx, leaf, pmax)
    requires last == if newindx >= |xs| - 1 then |xs| - 2 else if leaf then |xs| / 2 + 1 else |xs| / 2
    requires newindx <= |xs| / 2 || newindx >= |xs| - 1
    requires s <= last < |xs|
    requires s < last ==> Sum(xs[..s+1]) > pmax
    ensures s >= 1 && RightUsed(xs, s, leaf) <= pmax
  {
    SumSplit(xs, s);
    if s < last {
      assert xs[..1] == [xs[0]];
      SumSplit(xs, s + 1);
      assert xs[s..][1..] == xs[s+1..];
    } else if newindx >= |xs| - 1 {
      assert xs[s..] == [xs[s], xs[s+1]];
      assert xs[s..][1..] == [xs[s+1]] == xs[s+1..];
      assert Sum(xs[s+1..]) == xs[s+1];
      assert xs[s] <= pmax / 2 && xs[s+1] <= pmax / 2 && xs[s] >= 10;
    } else {
      SumDropsBefore(xs, newindx, if leaf then s else s + 1);
    }
  }

  lemma BackwardLeftFits(xs: seq<nat>, newindx: nat, leaf: bool, pmax: nat, s: nat, half: nat)
    requires Splittable(xs, newindx, leaf, pmax)
    requires newindx > half && half + 1 <= s < |xs|
    requires s > half + 1 ==> Sum(xs[s-1..]) > pmax
    ensures Sum(xs[..s]) <= pmax
  {
    if s == half + 1 {
      SumDropsAfter(xs, newindx, s);
    } else {
      SumSplit(xs, s - 1);
      SumSplit(xs[..s], s - 1);
      assert xs[..s][..s-1] == xs[..s-1] && xs[..s][s-1..] == [xs[s-1]];
    }
  }

  /** With nodes small next to the page, both halves of a branch page keep two nodes at least. */
  lemma BranchHalvesHaveTwo(xs: seq<nat>, newindx: nat, pmax: nat, bound: nat)
    requires Splittable(xs, newindx, false, pmax)
    requires NodesFit(xs, bound) && 4 * bound <= pmax < Sum(xs)
    ensures 2 <= SplitIndex(xs, newindx, false, pmax) <= |xs| - 2
  {
    hide Sum, Forward, Backward;
    var s := SplitIndex(xs, newindx, false, pmax);
    var nkeys := |xs| - 1;
    ManyNodes(xs, pmax, bound);
    if !Scans(nkeys, newindx, xs[newindx], pmax) {
    } else if newindx <= |xs| / 2 || newindx >= nkeys {
      ForwardTwo(xs, if newindx >= nkeys then nkeys - 1 else |xs| / 2, pmax, bound);
    } else {
      BackwardTwo(xs, |xs| / 2, pmax, bound);
    }
  }

  lemma ForwardTwo(xs: seq<nat>, last: nat, pmax: nat, bound: nat)
    requires NodesFit(xs, bound) && 4 * bound <= pmax && 2 <= last < |xs|
    ensures 2 <= Forward(xs, 0, 0, last, pmax) <= last
  {
    hide Sum, Forward;
    var s := Forward(xs, 0, 0, last, pmax);
    ForwardStops(xs, 0, 0, last, pmax);
    if s < last { ManyNodes(xs[0..s+1], pmax, bound); }
  }

  lemma BackwardTwo(xs: seq<nat>, first: nat, pmax: nat, bound: nat)
    requires NodesFit(xs, bound) && 4 * bound <= pmax && 1 <= first && first + 3 <= |xs|
    ensures 2 <= Backward(xs, |xs| - 1, 0, first, pmax) <= |xs| - 2
  {
    hide Sum, Backward;
    var s := Backward(xs, |xs| - 1, 0, first, pmax);
    BackwardStops(xs, |xs| - 1, 0, first, pmax);
    if s > first + 1 { ManyNodes(xs[s-1..|xs|], pmax, bound); }
  }

  lemma ManyNodes(xs: seq<nat>, pmax: nat, bound: nat)
    requires NodesFit(xs, bound) && 4 * bound <= pmax < Sum(xs)
    ensures |xs| >= 5
  {
    SumAtMost(xs, bound);
  }

  // ---- The branch that takes the split point by count --------------------------------------

  /** Old nodes landing on the half that does not receive the new node. */
  function OtherSide(nkeys: nat, newindx: nat): nat {
    var half := (nkeys + 1) / 2;
    if newindx < half then nkeys + 1 - half else half
  }

  predicate LeafNodes(xs: seq<nat>, pmax: nat) {
    forall i :: 0 <= i < |xs| ==> 12 <= xs[i] <= pmax / 2 && xs[i] % 2 == 0
  }

  /** A full leaf page on which the split point is not searched for; a leaf node takes 12 bytes at least. */
  predicate CountedLeaf(xs: seq<nat>, nkeys: nat, newindx: nat, nsize: nat, pmax: nat) {
    && |xs| == nkeys + 1 && Splittable(xs, newindx, true, pmax)
    && xs[newindx] == nsize && !Scans(nkeys, newindx, nsize, pmax)
    && LeafNodes(xs, pmax)
  }

  /** Both halves of a page cut in the middle by count fit. */
  predicate HalvesFit(xs: seq<nat>, leaf: bool, pmax: nat)
    requires xs != []
  {
    Sum(xs[..|xs| / 2]) <= pmax && RightUsed(xs, |xs| / 2, leaf) <= pmax
  }

  /** The split point is taken by count, and a half is over the page. */
  predicate CountedOverfull(xs: seq<nat>, newindx: nat, leaf: bool, pmax: nat) {
    |xs| >= 3 && newindx < |xs| && !Scans(|xs| - 1, newindx, xs[newindx], pmax) && !HalvesFit(xs, leaf, pmax)
  }

  /** A page about to split fails to exactly when it is cut by count and a half is over the page. */
  lemma SplitFailsExactly(xs: seq<nat>, newindx: nat, leaf: bool, pmax: nat)
    requires Splittable(xs, newindx, leaf, pmax) && NodesFit(xs, pmax)
    ensures var s := SplitIndex(xs, newindx, leaf, pmax);
            s == 0 || Sum(xs[..s]) > pmax || RightUsed(xs, s, leaf) > pmax
            <==> CountedOverfull(xs, newindx, leaf, pmax)
  {
    hide Sum, Forward, Backward, RightUsed;
    if Scans(|xs| - 1, newindx, xs[newindx], pmax) {
      ScannedHalvesFit(xs, newindx, leaf, pmax);
    }
  }

  lemma CountedHalvesFit(xs: seq<nat>, nkeys: nat, newindx: nat, nsize: nat, pmax: nat)
    requires CountedLeaf(xs, nkeys, newindx, nsize, pmax)
    requires nsize <= 12 * OtherSide(nkeys, newindx)
    ensures HalvesFit(xs, true, pmax)
  {
    var half := (nkeys + 1) / 2;
    SumSplit(xs, half);
    if newindx < half {
      SumAtLeast(xs[half..], 12);
      SumDropsBefore(xs, newindx, half);
    } else {
      SumAtLeast(xs[..half], 12);
      SumDropsAfter(xs, newindx, half);
    }
  }

  function Twelves(n: nat): (t: seq<nat>)
    ensures |t| == n && forall i :: 0 <= i < n ==> t[i] == 12
  {
    seq(n, _ => 12)
  }

  lemma SumTwelves(n: nat)
    ensures Sum(Twelves(n)) == 12 * n
  {
    SumAtLeast(Twelves(n), 12);
    SumAtMost(Twelves(n), 12);
  }

  /** Nodes filling `total` bytes with two large ones, the new node placed at `t` among them. */
  lemma CrowdedSide(m: nat, total: nat, nsize: nat, t: nat, pmax: nat) returns (side: seq<nat>)
    requires m >= 2 && t <= m && 12 * m <= total <= pmax - 12 && 12 <= nsize <= pmax / 2
    requires total % 2 == 0 && pmax % 2 == 0 && nsize % 2 == 0
    ensures |side| == m + 1 && side[t] == nsize && Sum(side) == total + nsize && LeafNodes(side, pmax)
  {
    hide Sum;
    var a, b := TwoNodes(total - 12 * (m - 2), pmax);
    var prior := (Twelves(m - 2) + [a]) + [b];
    SumTwelves(m - 2);
    SumSnoc(Twelves(m - 2), a);
    SumSnoc(Twelves(m - 2) + [a], b);
    side := Inserted(prior, t, nsize);
  }

  lemma Inserted(xs: seq<nat>, t: nat, x: nat) returns (ys: seq<nat>)
    requires t <= |xs|
    ensures ys == xs[..t] + [x] + xs[t..] && Sum(ys) == Sum(xs) + x
  {
    SumSplit(xs, t);
    SumSnoc(xs[..t], x);
    SumAppend(xs[..t] + [x], xs[t..]);
    ys := xs[..t] + [x] + xs[t..];
  }

  lemma TwoNodes(rest: nat, pmax: nat) returns (a: nat, b: nat)
    requires 24 <= rest <= pmax - 12 && rest % 2 == 0 && pmax % 2 == 0
    ensures a + b == rest && a % 2 == 0 && b % 2 == 0 && 12 <= a <= b <= pmax / 2
  {
    a := rest / 4 * 2;
    b := rest - a;
  }

  lemma OtherSideBounds(nkeys: nat, newindx: nat)
    requires nkeys >= 32 && newindx < nkeys
    ensures var half := (nkeys + 1) / 2;
            16 <= OtherSide(nkeys, newindx) <= nkeys - 2
            && (newindx < half ==> nkeys + 1 - OtherSide(nkeys, newindx) == half)
            && (newindx >= half ==> OtherSide(nkeys, newindx) == half)
  {
  }

  /** A page whose bytes sit in two large nodes next to the new one: that half is over the page size. */
  lemma CountedHalvesOverfull(nkeys: nat, newindx: nat, nsize: nat, pmax: nat) returns (xs: seq<nat>)
    requires nkeys >= 32 && newindx < nkeys && nsize <= pmax / 16 && 12 * nkeys <= pmax
    requires nsize % 2 == 0 && pmax % 2 == 0 && nsize > 12 * OtherSide(nkeys, newindx)
    ensures CountedLeaf(xs, nkeys, newindx, nsize, pmax) && !HalvesFit(xs, true, pmax)
  {
    hide Sum, OtherSide, CountedLeaf, HalvesFit;
    OtherSideBounds(nkeys, newindx);
    var half := (nkeys + 1) / 2;
    var o := OtherSide(nkeys, newindx);
    var t := if newindx < half then newindx else newindx - half;
    var side := CrowdedSide(nkeys - o, pmax - 12 * o, nsize, t, pmax);
    xs := Padded(side, o, newindx < half, pmax);
    assert xs[newindx] == nsize by {
      if newindx < half { assert xs[..|side|][t] == side[t]; } else { assert xs[o..][t] == side[t]; }
    }
    PageOver(xs, nkeys, newindx, nsize, o, side, pmax);
  }

  lemma PageOver(xs: seq<nat>, nkeys: nat, newindx: nat, nsize: nat, o: nat, side: seq<nat>, pmax: nat)
    requires nkeys >= 32 && newindx < nkeys && nsize <= pmax / 16 && |xs| == nkeys + 1 && xs[newindx] == nsize
    requires LeafNodes(xs, pmax) && Sum(xs) == pmax + nsize && Sum(side) > pmax
    requires var half := (nkeys + 1) / 2; if newindx < half then xs[..half] == side else xs[half..] == side
    ensures CountedLeaf(xs, nkeys, newindx, nsize, pmax) && !HalvesFit(xs, true, pmax)
  {
    hide Sum;
  }

  /** The crowded nodes and `o` smallest ones on the other side of them. */
  lemma Padded(side: seq<nat>, o: nat, after: bool, pmax: nat) returns (xs: seq<nat>)
    requires pmax >= 24 && LeafNodes(side, pmax)
    ensures |xs| == |side| + o && Sum(xs) == Sum(side) + 12 * o && LeafNodes(xs, pmax)
    ensures if after then xs[..|side|] == side else xs[o..] == side
  {
    SumTwelves(o);
    if after {
      xs := side + Twelves(o);
      SumAppend(side, Twelves(o));
    } else {
      xs := Twelves(o) + side;
      SumAppend(Twelves(o), side);
    }
  }

  /** The count-based split fits every page of its kind exactly when the new node
      is no larger than the least the other half can hold. */
  lemma CountedSplitExact(nkeys: nat, newindx: nat, nsize: nat, pmax: nat)
    requires nkeys >= 32 && newindx < nkeys && nsize <= pmax / 16 && 12 * nkeys <= pmax
    requires nsize % 2 == 0 && pmax % 2 == 0
    ensures (forall xs :: CountedLeaf(xs, nkeys, newindx, nsize, pmax) ==> HalvesFit(xs, true, pmax))
            <==> nsize <= 12 * OtherSide(nkeys, newindx)
  {
    if nsize <= 12 * OtherSide(nkeys, newindx) {
      forall xs | CountedLeaf(xs, nkeys, newindx, nsize, pmax) ensures HalvesFit(xs, true, pmax) {
        CountedHalvesFit(xs, nkeys, newindx, nsize, pmax);
      }
    } else {
      var xs := CountedHalvesOverfull(nkeys, newindx, nsize, pmax);
    }
  }

  // ---- The same for branch pages -------------------------------------------------------------

  /** Slot 0 of a branch page has no key, every other node one of a byte at least. */
  predicate BranchNodes(xs: seq<nat>, bound: nat) {
    xs != [] && xs[0] == 10 && forall i :: 0 < i < |xs| ==> 12 <= xs[i] <= bound && xs[i] % 2 == 0
  }

  /** A full branch page on which the split point is not searched for. */
  predicate CountedBranch(xs: seq<nat>, nkeys: nat, newindx: nat, nsize: nat, bound: nat, pmax: nat) {
    && |xs| == nkeys + 1 && 1 <= newindx < |xs| && xs[newindx] == nsize && BranchNodes(xs, bound)
    && Sum(xs) - nsize <= pmax < Sum(xs) && !Scans(nkeys, newindx, nsize, pmax)
  }

  /** Old nodes with a key that share the half with the new one. */
  function Companions(nkeys: nat, newindx: nat): int {
    var half := (nkeys + 1) / 2;
    if newindx < half then half - 2 else nkeys - half - 1
  }

  /** Halving by count is safe for a node of this size: it is the one whose key is dropped, or small enough for what
      the other half holds at least, or the nodes beside it cannot be large enough to fill their half. */
  predicate CountedSafe(nkeys: nat, newindx: nat, nsize: nat, bound: nat, pmax: nat) {
    || newindx == (nkeys + 1) / 2
    || nsize <= 12 * OtherSide(nkeys, newindx)
    || 10 + bound * Companions(nkeys, newindx) + nsize <= pmax
  }

  lemma BranchAtLeast(xs: seq<nat>, bound: nat, n: nat)
    requires BranchNodes(xs, bound) && 1 <= n <= |xs|
    ensures Sum(xs[..n]) >= 10 + 12 * (n - 1) && Sum(xs[n..]) >= 12 * (|xs| - n)
  {
    hide Sum;
    SumAtLeast(xs[n..], 12);
    SumSplit(xs[..n], 1);
    assert xs[..n][..1] == [10];
    SumOne(10);
    SumAtLeast(xs[..n][1..], 12);
  }

  lemma BranchAtMost(xs: seq<nat>, bound: nat, t: nat)
    requires forall i :: 0 <= i < |xs| ==> xs[i] <= bound
    requires t < |xs|
    ensures Sum(xs) <= xs[t] + bound * (|xs| - 1)
  {
    hide Sum;
    SumRemove(xs, t);
    SumAtMost(xs[..t], bound);
    SumAtMost(xs[t+1..], bound);
    assert t * bound + (|xs| - 1 - t) * bound == bound * (|xs| - 1);
  }

  lemma RightAfter(xs: seq<nat>, half: nat)
    requires half < |xs|
    ensures Sum(xs[half..]) == xs[half] + Sum(xs[half+1..])
  {
    assert xs[half..][1..] == xs[half+1..];
  }

  lemma CountedBranchFits(xs: seq<nat>, nkeys: nat, newindx: nat, nsize: nat, bound: nat, pmax: nat)
    requires CountedBranch(xs, nkeys, newindx, nsize, bound, pmax) && CountedSafe(nkeys, newindx, nsize, bound, pmax)
    ensures HalvesFit(xs, false, pmax)
  {
    hide Sum;
    var half := (nkeys + 1) / 2;
    SumSplit(xs, half);
    RightAfter(xs, half);
    BranchAtLeast(xs, bound, half);
    BranchAtLeast(xs, bound, half + 1);
    SumSplit(xs, half + 1);
    if newindx < half {
      SumDropsBefore(xs, newindx, half);
      var rest := xs[..half][1..];
      SumSplit(xs[..half], 1);
      assert xs[..half][..1] == [10];
      SumOne(10);
      assert rest[newindx-1] == nsize;
      BranchAtMost(rest, bound, newindx - 1);
    } else {
      SumDropsAfter(xs, newindx, half);
      if newindx > half {
        var rest := xs[half+1..];
        assert rest[newindx-half-1] == nsize;
        BranchAtMost(rest, bound, newindx - half - 1);
      }
    }
  }

  /** `total` spread over `m` places of 6 at least, the first ones as large as they can be. */
  function Spread(m: nat, total: nat, bound: nat): (ys: seq<nat>)
    requires 6 * m <= total && 6 <= bound
    ensures |ys| == m && forall i :: 0 <= i < m ==> 6 <= ys[i]
    decreases m
  {
    if m == 0 then []
    else
      var spare := total - 6 * (m - 1);
      var x := if m == 1 || spare < bound then spare else bound;
      [x] + Spread(m - 1, total - x, bound)
  }

  lemma {:induction false} SpreadSum(m: nat, total: nat, bound: nat)
    requires 6 * m <= total && 6 <= bound && (m == 0 ==> total == 0)
    ensures Sum(Spread(m, total, bound)) == total
    decreases m
  {
    hide Sum;
    if m == 0 {
      SumOne(0);
    } else {
      var spare := total - 6 * (m - 1);
      var x := if m == 1 || spare < bound then spare else bound;
      SpreadSum(m - 1, total - x, bound);
      SumOne(x);
      SumAppend([x], Spread(m - 1, total - x, bound));
    }
  }

  lemma SpreadRest(m: nat, total: nat, bound: nat)
    requires 1 < m && 6 * m <= total <= bound * m && 6 <= bound
    ensures var spare := total - 6 * (m - 1); var x := if spare < bound then spare else bound;
            6 * (m - 1) <= total - x <= bound * (m - 1)
  {
    Times(6, bound, m - 1);
    assert bound * m == bound * (m - 1) + bound;
  }

  lemma {:induction false} SpreadBound(m: nat, total: nat, bound: nat)
    requires 6 * m <= total <= bound * m && 6 <= bound
    ensures forall i :: 0 <= i < m ==> Spread(m, total, bound)[i] <= bound
    decreases m
  {
    if m > 1 {
      SpreadRest(m, total, bound);
      var spare := total - 6 * (m - 1);
      var x := if spare < bound then spare else bound;
      SpreadBound(m - 1, total - x, bound);
      assert Spread(m, total, bound) == [x] + Spread(m - 1, total - x, bound);
    } else if m == 1 {
      assert bound * m == bound;
    }
  }

  function Doubled(ys: seq<nat>): (xs: seq<nat>)
    ensures |xs| == |ys| && forall i :: 0 <= i < |ys| ==> xs[i] == 2 * ys[i]
  {
    seq(|ys|, i requires 0 <= i < |ys| => 2 * ys[i])
  }

  lemma {:induction false} DoubledSum(ys: seq<nat>)
    ensures Sum(Doubled(ys)) == 2 * Sum(ys)
  {
    if ys != [] {
      assert Doubled(ys)[1..] == Doubled(ys[1..]);
      DoubledSum(ys[1..]);
    }
  }

  lemma HalfOfProduct(total: nat, bound: nat, m: nat)
    requires total <= bound * m && total % 2 == 0 && bound % 2 == 0
    ensures total / 2 <= bound / 2 * m
  {
    assert bound * m == 2 * (bound / 2 * m);
  }

  /** `total` bytes in `m` nodes of even sizes from 12 to `bound`. */
  lemma Crowd(m: nat, total: nat, bound: nat) returns (xs: seq<nat>)
    requires 12 * m <= total <= bound * m && 12 <= bound && total % 2 == 0 && bound % 2 == 0
    ensures |xs| == m && Sum(xs) == total
    ensures forall i :: 0 <= i < m ==> 12 <= xs[i] <= bound && xs[i] % 2 == 0
  {
    hide Sum, Spread;
    HalfOfProduct(total, bound, m);
    if m == 0 { assert bound * m == 0; }
    xs := CrowdOfHalves(m, total / 2, bound / 2);
  }

  lemma CrowdOfHalves(m: nat, total: nat, bound: nat) returns (xs: seq<nat>)
    requires 6 * m <= total <= bound * m && 6 <= bound && (m == 0 ==> total == 0)
    ensures |xs| == m && Sum(xs) == 2 * total
    ensures forall i :: 0 <= i < m ==> 12 <= xs[i] <= 2 * bound && xs[i] % 2 == 0
  {
    hide Sum;
    var ys := Spread(m, total, bound);
    SpreadBound(m, total, bound);
    SpreadSum(m, total, bound);
    DoubledSum(ys);
    xs := Doubled(ys);
  }

  /** A half with as many bytes as its page allows, the new node among its nodes. */
  lemma CrowdedHalf(m: nat, room: nat, nsize: nat, t: nat, bound: nat) returns (side: seq<nat>, total: nat)
    requires t <= m && 12 * m <= room && 12 <= nsize <= bound && room % 2 == 0 && bound % 2 == 0 && nsize % 2 == 0
    ensures total == (if room < bound * m then room else bound * m)
    ensures |side| == m + 1 && side[t] == nsize && Sum(side) == total + nsize
    ensures forall i :: 0 <= i < |side| ==> 12 <= side[i] <= bound && side[i] % 2 == 0
  {
    hide Sum, Spread;
    Times(12, bound, m);
    EvenTimes(bound, m);
    total := if room < bound * m then room else bound * m;
    var xs := Crowd(m, total, bound);
    side := Inserted(xs, t, nsize);
  }

  lemma Times(a: nat, b: nat, m: nat)
    requires a <= b
    ensures a * m <= b * m
  {
  }

  lemma EvenTimes(a: nat, m: nat)
    requires a % 2 == 0
    ensures (a * m) % 2 == 0
  {
    assert a * m == 2 * (a / 2 * m);
  }

  lemma LeftOverfull(nkeys: nat, newindx: nat, nsize: nat, bound: nat, pmax: nat) returns (xs: seq<nat>)
    requires nkeys >= 32 && 1 <= newindx < (nkeys + 1) / 2 && 12 <= nsize <= pmax / 16 && 12 * nkeys <= pmax
    requires nsize % 2 == 0 && pmax % 2 == 0 && bound % 2 == 0 && nsize <= bound
    requires !CountedSafe(nkeys, newindx, nsize, bound, pmax)
    ensures CountedBranch(xs, nkeys, newindx, nsize, bound, pmax) && !HalvesFit(xs, false, pmax)
  {
    hide Sum, RightUsed;
    var half := (nkeys + 1) / 2;
    var o := nkeys + 1 - half;
    var side, total := CrowdedHalf(half - 2, pmax - 12 * o - 10, nsize, newindx - 1, bound);
    SumOne(10);
    SumTwelves(o);
    SumAppend([10], side);
    SumAppend([10] + side, Twelves(o));
    xs := [10] + side + Twelves(o);
    assert xs[..half] == [10] + side;
  }

  lemma RightRoom(nkeys: nat, newindx: nat, nsize: nat, bound: nat, pmax: nat)
    requires nkeys >= 32 && (nkeys + 1) / 2 < newindx && !CountedSafe(nkeys, newindx, nsize, bound, pmax)
    ensures var half := (nkeys + 1) / 2;
            nsize > 12 * half && 10 + bound * (nkeys - half - 1) + nsize > pmax
  {
  }

  lemma RightOverfull(nkeys: nat, newindx: nat, nsize: nat, bound: nat, pmax: nat) returns (xs: seq<nat>)
    requires nkeys >= 32 && (nkeys + 1) / 2 < newindx < nkeys && 12 <= nsize <= pmax / 16 && 12 * nkeys <= pmax
    requires nsize % 2 == 0 && pmax % 2 == 0 && bound % 2 == 0 && nsize <= bound
    requires !CountedSafe(nkeys, newindx, nsize, bound, pmax)
    ensures CountedBranch(xs, nkeys, newindx, nsize, bound, pmax) && !HalvesFit(xs, false, pmax)
  {
    hide Sum, Companions, OtherSide;
    RightRoom(nkeys, newindx, nsize, bound, pmax);
    var half := (nkeys + 1) / 2;
    var side, total := CrowdedHalf(nkeys - half - 1, pmax - 12 * half - 10, nsize, newindx - half - 1, bound);
    SumOne(10);
    SumTwelves(half);
    SumAppend([10], Twelves(half));
    SumAppend([10] + Twelves(half), side);
    xs := [10] + Twelves(half) + side;
    assert xs[half+1..] == side;
  }

  /** A full branch page whose bytes sit beside the new node. */
  lemma CountedBranchOverfull(nkeys: nat, newindx: nat, nsize: nat, bound: nat, pmax: nat) returns (xs: seq<nat>)
    requires nkeys >= 32 && 1 <= newindx < nkeys && 12 <= nsize <= pmax / 16 && 12 * nkeys <= pmax
    requires nsize % 2 == 0 && pmax % 2 == 0 && bound % 2 == 0 && nsize <= bound
    requires !CountedSafe(nkeys, newindx, nsize, bound, pmax)
    ensures CountedBranch(xs, nkeys, newindx, nsize, bound, pmax) && !HalvesFit(xs, false, pmax)
  {
    hide CountedBranch, HalvesFit;
    if newindx < (nkeys + 1) / 2 {
      xs := LeftOverfull(nkeys, newindx, nsize, bound, pmax);
    } else {
      assert newindx != (nkeys + 1) / 2;
      xs := RightOverfull(nkeys, newindx, nsize, bound, pmax);
    }
  }

  /** The count-based split fits every branch page of its kind exactly when the new node is safe. */
  lemma CountedBranchExact(nkeys: nat, newindx: nat, nsize: nat, bound: nat, pmax: nat)
    requires nkeys >= 32 && 1 <= newindx < nkeys && 12 <= nsize <= pmax / 16 && 12 * nkeys <= pmax
    requires nsize % 2 == 0 && pmax % 2 == 0 && bound % 2 == 0 && nsize <= bound
    ensures (forall xs :: CountedBranch(xs, nkeys, newindx, nsize, bound, pmax) ==> HalvesFit(xs, false, pmax))
            <==> CountedSafe(nkeys, newindx, nsize, bound, pmax)
  {
    hide CountedSafe, HalvesFit;
    if CountedSafe(nkeys, newindx, nsize, bound, pmax) {
      forall xs | CountedBranch(xs, nkeys, newindx, nsize, bound, pmax) ensures HalvesFit(xs, false, pmax) {
        CountedBranchFits(xs, nkeys, newindx, nsize, bound, pmax);
      }
    } else {
      var xs := CountedBranchOverfull(nkeys, newindx, nsize, bound, pmax);
    }
  }

  // ---- The search as the loop that runs ----------------------------------------------------

  function Even(n: nat): (e: nat)
    ensures n <= e <= n + 1 && e % 2 == 0
  {
    n + n % 2
  }

  function Evened(raw: seq<nat>): (xs: seq<nat>)
    ensures |xs| == |raw| && forall i :: 0 <= i < |raw| ==> xs[i] == Even(raw[i])
  {
    seq(|raw|, i requires 0 <= i < |raw| => Even(raw[i]))
  }

  lemma EvenAfterEven(acc: nat, n: nat)
    requires acc % 2 == 0
    ensures Even(acc + n) == acc + Even(n)
  {
  }

  method RunningSize(psize: nat, raw: nat, isNew: bool, nsize: nat) returns (p: nat)
    requires psize % 2 == 0 && (isNew ==> nsize == Even(raw))
    ensures p == psize + Even(raw) && p % 2 == 0
  {
    if isNew { p := psize + nsize; } else { EvenAfterEven(psize, raw); p := Even(psize + raw); }
  }

  lemma ForwardStep(xs: seq<nat>, i: nat, acc: nat, last: nat, pmax: nat)
    requires i <= last < |xs|
    ensures Forward(xs, i, acc, last, pmax) ==
            if acc + xs[i] > pmax || i == last then i else Forward(xs, i + 1, acc + xs[i], last, pmax)
  {
  }

  lemma BackwardStep(xs: seq<nat>, i: nat, acc: nat, first: nat, pmax: nat)
    requires first <= i < |xs|
    ensures Backward(xs, i, acc, first, pmax) ==
            if acc + xs[i] > pmax || i == first then i + 1 else Backward(xs, i - 1, acc + xs[i], first, pmax)
  {
  }

  lemma SplitCases(xs: seq<nat>, newindx: nat, leaf: bool, pmax: nat)
    requires |xs| >= 3 && newindx < |xs| && NodesFit(xs, pmax)
    ensures var nkeys, half, s := |xs| - 1, |xs| / 2, SplitIndex(xs, newindx, leaf, pmax);
            if !(nkeys < 32 || xs[newindx] > pmax / 16 || newindx >= nkeys) then s == half
            else if newindx >= nkeys then s == Forward(xs, 0, 0, nkeys - 1, pmax)
            else if newindx <= half then s == Forward(xs, 0, 0, if leaf then half + 1 else half, pmax)
            else s == Backward(xs, nkeys, 0, half, pmax)
  {
  }

  /** `raw` holds each node's header, slot, key and data bytes before rounding; the running total is rounded. */
  method FindSplit(raw: seq<nat>, newindx: nat, leaf: bool, pmax: nat) returns (split: nat)
    requires |raw| >= 3 && newindx < |raw| && NodesFit(Evened(raw), pmax)
    ensures split == SplitIndex(Evened(raw), newindx, leaf, pmax)
  {
    hide NodesFit, SplitIndex, Forward, Backward, Even;
    ghost var xs := Evened(raw);
    ghost var target := SplitIndex(xs, newindx, leaf, pmax);
    SplitCases(xs, newindx, leaf, pmax);
    var nkeys := |raw| - 1;
    var nsize := Even(raw[newindx]);
    split := (nkeys + 1) / 2;
    if nkeys < 32 || nsize > pmax / 16 || newindx >= nkeys {
      var psize: nat := 0;
      var i, j, k: int;
      if newindx <= split || newindx >= nkeys {
        i, j := 0, 1;
        k := if newindx >= nkeys then nkeys else split + 1 + (if leaf then 1 else 0);
      } else {
        i, j, k := nkeys, -1, split - 1;
      }
      ghost var half := split;
      while i != k
        invariant j == 1 || j == -1
        invariant j == 1 ==> 0 <= i < k <= nkeys + 1 && Forward(xs, i, psize, k - 1, pmax) == target
        invariant j == -1 ==> k + 1 == half <= i <= nkeys && Backward(xs, i, psize, half, pmax) == target
        invariant psize % 2 == 0
        decreases if j == 1 then k - i else i - k
      {
        assert xs[i] == Even(raw[i]);
        if j == 1 { ForwardStep(xs, i, psize, k - 1, pmax); } else { BackwardStep(xs, i, psize, half, pmax); }
        psize := RunningSize(psize, raw[i], i == newindx, nsize);
        if psize > pmax || i == k - j {
          split := i + (if j < 0 then 1 else 0);
          return;
        }
        i := i + j;
      }
    }
  }
}
