/** Runs of consecutive pages in a descending free list: finding, taking and returning them (mdb.c). */
module PageRuns {
  import opened IdList

  /** Ids that descend strictly lie at least as far apart as their positions. */
  lemma {:induction false} Gap(s: seq<nat>, i: nat, j: nat)
    requires Descending(s) && i <= j < |s|
    ensures s[i] >= s[j] + (j - i)
    decreases j - i
  {
    if i < j { Gap(s, i + 1, j); }
  }

  lemma InOrder(s: seq<nat>, i: nat, j: nat)
    requires Descending(s) && i < |s| && j < |s|
    ensures i < j ==> s[i] > s[j]
  {
  }

  /** The `num` places up to `i` hold consecutive pages. */
  predicate IsRun(s: seq<nat>, i: nat, num: nat)
    requires num <= i + 1 <= |s|
  {
    forall p :: i - num < p <= i ==> s[p] == s[i] + (i - p)
  }

  /** Comparing the two ends of a stretch tells whether all its pages are consecutive. */
  lemma RunTest(s: seq<nat>, i: nat, n2: nat)
    requires Descending(s) && n2 <= i < |s|
    ensures s[i-n2] == s[i] + n2 <==> IsRun(s, i, n2 + 1)
  {
    if s[i-n2] == s[i] + n2 {
      forall p | i - n2 <= p <= i ensures s[p] == s[i] + (i - p) {
        Gap(s, p, i);
        Gap(s, i - n2, p);
      }
    }
  }

  predicate AllListed(s: seq<nat>, pg: nat, num: nat) {
    forall p :: pg <= p < pg + num ==> p in s
  }

  predicate NoneListed(s: seq<nat>, pg: nat, num: nat) {
    forall p :: pg <= p < pg + num ==> p !in s
  }

  /** A run of free pages occupies consecutive places. */
  lemma RunPlace(s: seq<nat>, pg: nat, n2: nat) returns (i: nat)
    requires Descending(s) && AllListed(s, pg, n2 + 1)
    ensures n2 <= i < |s| && s[i] == pg && s[i-n2] == pg + n2
  {
    var end := pg + n2;
    assert pg in s && end in s;
    i :| 0 <= i < |s| && s[i] == pg;
    var j :| 0 <= j < |s| && s[j] == end;
    InOrder(s, i, j);
    if j < i {
      Gap(s, j, i);
      RunTooShort(s, pg, n2, i, j);
    }
  }

  /** A run needs as many places as it has pages. */
  lemma {:induction false} RunTooShort(s: seq<nat>, pg: nat, n2: nat, i: nat, j: nat)
    requires Descending(s) && AllListed(s, pg, n2 + 1) && j <= i < |s| && s[i] == pg && s[j] == pg + n2
    ensures i - j >= n2
    decreases n2
  {
    if n2 > 0 {
      var next := pg + 1;
      assert next in s;
      var m :| 0 <= m < |s| && s[m] == next;
      InOrder(s, i, m);
      InOrder(s, m, j);
      RunTooShort(s, next, n2 - 1, m, j);
    }
  }

  /** Look for `num` consecutive pages from the low end; 0 when there are none (mdb_page_alloc). */
  method FindRun(mop: array<nat>, num: nat) returns (i: nat)
    requires IsList(mop[..]) && Descending(Items(mop[..])) && num > 0
    ensures i == 0 || num <= i <= mop[0]
    ensures i > 0 ==> IsRun(Items(mop[..]), i - 1, num)
    ensures i == 0 ==> forall pg :: !AllListed(Items(mop[..]), pg, num)
  {
    hide Descending, AllListed, IsRun;
    var n2 := num - 1;
    i := mop[0];
    ghost var s := Items(mop[..]);
    while i > n2
      invariant 0 <= i <= |s|
      invariant forall p :: i <= p < |s| && n2 <= p ==> s[p-n2] != s[p] + n2
      decreases i
    {
      assert mop[i] == s[i-1] && mop[i-n2] == s[i-1-n2];
      if mop[i-n2] == mop[i] + n2 {
        RunTest(s, i - 1, n2);
        return;
      }
      i := i - 1;
    }
    forall pg ensures !AllListed(s, pg, num) { NoPlace(s, pg, n2); }
    i := 0;
  }

  lemma NoPlace(s: seq<nat>, pg: nat, n2: nat)
    requires Descending(s) && forall p :: n2 <= p < |s| ==> s[p-n2] != s[p] + n2
    ensures !AllListed(s, pg, n2 + 1)
  {
    if AllListed(s, pg, n2 + 1) {
      var i := RunPlace(s, pg, n2);
      assert false;
    }
  }

  function Without(s: seq<nat>, at: nat, num: nat): (t: seq<nat>)
    requires at + num <= |s|
    ensures |t| == |s| - num
    ensures forall p :: 0 <= p < |t| ==> t[p] == if p < at then s[p] else s[p + num]
  {
    s[..at] + s[at + num..]
  }

  /** Take the pages at places `i0 - num + 1` to `i0` out of the list; the ones after them move down. */
  method TakeRun(mop: array<nat>, i0: nat, num: nat)
    requires IsList(mop[..]) && 0 < num <= i0 <= mop[0]
    modifies mop
    ensures IsList(mop[..]) && Items(mop[..]) == Without(old(Items(mop[..])), i0 - num, num)
  {
    ghost var s := Items(mop[..]);
    ghost var n := mop[0];
    var len := mop[0] - num;
    mop[0] := len;
    var i, j := i0, i0 - num;
    assert forall p :: 1 <= p <= n ==> mop[p] == s[p-1];
    while j < len
      invariant i0 - num <= j <= len && i == j + num && mop[0] == len
      invariant forall p :: 1 <= p <= j ==> mop[p] == if p <= i0 - num then s[p-1] else s[p-1+num]
      invariant forall p :: j < p <= n ==> mop[p] == s[p-1]
    {
      j := j + 1;
      i := i + 1;
      mop[j] := mop[i];
    }
    ListIs(mop[..], Without(s, i0 - num, num));
  }

  lemma ListIs(a: seq<nat>, t: seq<nat>)
    requires a != [] && a[0] == |t| < |a| && forall p :: 1 <= p <= |t| ==> a[p] == t[p-1]
    ensures IsList(a) && Items(a) == t
  {
  }

  lemma WithoutDescends(s: seq<nat>, at: nat, num: nat)
    requires Descending(s) && at + num <= |s|
    ensures Descending(Without(s, at, num))
  {
  }

  /** How many ids of a descending list are above a page. */
  function Above(s: seq<nat>, pg: nat): (n: nat)
    ensures n <= |s|
  {
    if s == [] then 0 else if s[|s|-1] >= pg then |s| else Above(s[..|s|-1], pg)
  }

  function With(s: seq<nat>, pg: nat, num: nat): seq<nat> {
    s[..Above(s, pg)] + RunDown(pg, num) + s[Above(s, pg)..]
  }

  /** Ids below the page move `num` places up; tells how many stay. */
  method MoveUp(mop: array<nat>, pg0: nat, num: nat) returns (i: nat)
    requires IsList(mop[..]) && mop[0] + num < mop.Length
    modifies mop
    ensures i == Above(old(Items(mop[..])), pg0) <= mop[0] == old(mop[0])
    ensures forall p :: 1 <= p <= i ==> mop[p] == old(Items(mop[..]))[p-1]
    ensures forall p :: i + num < p <= mop[0] + num ==> mop[p] == old(Items(mop[..]))[p - num - 1]
  {
    ghost var s := Items(mop[..]);
    var len := mop[0];
    assert forall p :: 1 <= p <= len ==> mop[p] == s[p-1];
    i := len;
    var j := len + num;
    assert s[..len] == s;
    while i > 0 && mop[i] < pg0
      invariant 0 <= i <= len && j == i + num && Above(s, pg0) == Above(s[..i], pg0)
      invariant forall p :: 1 <= p <= i ==> mop[p] == s[p-1]
      invariant forall p :: j < p <= len + num ==> mop[p] == s[p - num - 1]
      invariant mop[0] == len
      decreases i
    {
      assert s[..i][..i-1] == s[..i-1];
      mop[j] := mop[i];
      j := j - 1;
      i := i - 1;
    }
  }

  /** Put a range of pages back in its place (mdb_ovpage_free). */
  method ReturnRun(mop: array<nat>, pg0: nat, num: nat)
    requires IsList(mop[..]) && mop[0] + num < mop.Length
    modifies mop
    ensures IsList(mop[..]) && Items(mop[..]) == With(old(Items(mop[..])), pg0, num)
  {
    hide Above, With;
    ghost var s := Items(mop[..]);
    var i := MoveUp(mop, pg0, num);
    ghost var moved := mop[..];
    var j, pg := i + num, pg0;
    while j > i
      invariant i <= j <= i + num && pg == pg0 + (i + num - j)
      invariant forall p :: j < p <= i + num ==> mop[p] == pg0 + (i + num - p)
      invariant forall p :: 0 <= p < mop.Length && !(j < p <= i + num) ==> mop[p] == moved[p]
    {
      mop[j] := pg;
      j := j - 1;
      pg := pg + 1;
    }
    mop[0] := mop[0] + num;
    WithAt(s, pg0, num, mop[..]);
  }

  lemma WithAt(s: seq<nat>, pg: nat, num: nat, a: seq<nat>)
    requires a != [] && a[0] == |s| + num < |a|
    requires forall p :: 1 <= p <= Above(s, pg) ==> a[p] == s[p-1]
    requires forall p :: Above(s, pg) < p <= Above(s, pg) + num ==> a[p] == pg + (Above(s, pg) + num - p)
    requires forall p :: Above(s, pg) + num < p <= |s| + num ==> a[p] == s[p - num - 1]
    ensures IsList(a) && Items(a) == With(s, pg, num)
  {
    hide Above;
    var n := Above(s, pg);
    assert n <= |s| by { AboveBound(s, pg); }
    var t := With(s, pg, num);
    forall p | 1 <= p <= |t| ensures a[p] == t[p-1] {}
    ListIs(a, t);
  }

  lemma AboveBound(s: seq<nat>, pg: nat)
    ensures Above(s, pg) <= |s|
  {
  }

  lemma {:induction false} AboveSpec(s: seq<nat>, pg: nat)
    requires Descending(s)
    ensures forall p :: 0 <= p < Above(s, pg) ==> s[p] >= pg
    ensures forall p :: Above(s, pg) <= p < |s| ==> s[p] < pg
  {
    if s != [] && s[|s|-1] < pg { AboveSpec(s[..|s|-1], pg); }
  }

  lemma {:induction false} AboveUnique(s: seq<nat>, pg: nat, n: nat)
    requires n <= |s| && forall p :: 0 <= p < n ==> s[p] >= pg
    requires forall p :: n <= p < |s| ==> s[p] < pg
    ensures Above(s, pg) == n
  {
    if n < |s| { AboveUnique(s[..|s|-1], pg, n); }
  }

  /** Returning pages that are not listed keeps the list strictly descending. */
  lemma WithDescends(s: seq<nat>, pg: nat, num: nat)
    requires Descending(s) && NoneListed(s, pg, num)
    ensures Descending(With(s, pg, num))
  {
    hide Above;
    AboveSpec(s, pg);
    AboveBound(s, pg);
    var n := Above(s, pg);
    forall p | 0 <= p < n ensures s[p] >= pg + num { assert s[p] in s; }
  }

  /** Returning the pages that were taken restores the list exactly. */
  lemma TakenAndReturned(s: seq<nat>, i: nat, num: nat)
    requires Descending(s) && num <= i + 1 <= |s| && 0 < num && IsRun(s, i, num)
    ensures With(Without(s, i + 1 - num, num), s[i], num) == s
  {
    hide Above, Without, With;
    var at, pg := i + 1 - num, s[i];
    var t := Without(s, at, num);
    assert t == s[..at] + s[i+1..] by { TakenIs(s, at, num); }
    TakenPlace(s, i, num, t);
    assert With(t, pg, num) == s[..at] + RunDown(pg, num) + s[i+1..] by { WithIs(t, pg, num); }
    assert RunDown(pg, num) == s[at..i+1];
    assert s == s[..at] + s[at..i+1] + s[i+1..];
  }

  lemma TakenIs(s: seq<nat>, at: nat, num: nat)
    requires at + num <= |s|
    ensures Without(s, at, num) == s[..at] + s[at + num..]
  {
  }

  lemma WithIs(s: seq<nat>, pg: nat, num: nat)
    ensures Above(s, pg) <= |s| && With(s, pg, num) == s[..Above(s, pg)] + RunDown(pg, num) + s[Above(s, pg)..]
  {
  }

  lemma TakenPlace(s: seq<nat>, i: nat, num: nat, t: seq<nat>)
    requires Descending(s) && num <= i + 1 <= |s| && 0 < num && IsRun(s, i, num)
    requires t == s[..i + 1 - num] + s[i+1..]
    ensures Above(t, s[i]) == i + 1 - num
  {
    var at := i + 1 - num;
    assert forall p :: 0 <= p < at ==> t[p] == s[p] > s[i];
    assert forall p :: at <= p < |t| ==> t[p] == s[p + num] < s[i];
    AboveUnique(t, s[i], at);
  }
}
