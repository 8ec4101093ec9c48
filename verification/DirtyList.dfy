/** Dirty-page lists: ascending arrays of page numbers with their pages, and merging a nested transaction's into its
    parent's (midl.c, mdb_txn_commit). */
module DirtyList {

  const UM_MAX := 131071

  /** A page number and the handle of its copy in memory (MDB_ID2). */
  datatype Id2 = Id2(mid: nat, mptr: nat)

  predicate Ascending(s: seq<Id2>) {
    forall i, j :: 0 <= i < j < |s| ==> s[i].mid < s[j].mid
  }

  predicate IsList(a: seq<Id2>) { a != [] && a[0].mid < |a| }

  function Items(a: seq<Id2>): (s: seq<Id2>)
    requires IsList(a)
    ensures |s| == a[0].mid
  {
    a[1..a[0].mid + 1]
  }

  // ---- Search and insert -------------------------------------------------------------------

  /** The first position whose page is not below the key (mdb_mid2l_search). */
  method Search(ids: array<Id2>, id: nat) returns (cursor: nat)
    requires IsList(ids[..]) && Ascending(Items(ids[..]))
    ensures 1 <= cursor <= ids[0].mid + 1
    ensures forall j :: 1 <= j < cursor ==> ids[j].mid < id
    ensures forall j :: cursor <= j <= ids[0].mid ==> ids[j].mid >= id
  {
    var base, n, val: int := 0, ids[0].mid, 0;
    cursor := 1;
    var count := ids[0].mid;
    ghost var s := Items(ids[..]);
    assert forall j :: 1 <= j <= count ==> ids[j] == s[j-1];
    while 0 < n
      invariant 0 <= base && 0 <= n && base + n <= count
      invariant forall j :: 1 <= j <= base ==> ids[j].mid < id
      invariant forall j :: base + n < j <= count ==> ids[j].mid > id
      invariant (val == 0 && base == 0 && n == count && cursor == 1) || (val < 0 && cursor == base + n + 1) || (val > 0 && cursor == base)
    {
      var pivot := n / 2;
      cursor := base + pivot + 1;
      val := if id < ids[cursor].mid then -1 else if id > ids[cursor].mid then 1 else 0;
      if val < 0 {
        n := pivot;
      } else if val > 0 {
        base := cursor;
        n := n - (pivot + 1);
      } else {
        return;
      }
    }
    if val > 0 {
      cursor := cursor + 1;
    }
  }

  datatype Outcome = Added | Duplicate | TooBig

  /** Insert in order; a page already listed is refused, and so is any page once the list is full (mdb_mid2l_insert). */
  method Insert(ids: array<Id2>, item: Id2) returns (rc: Outcome)
    requires IsList(ids[..]) && Ascending(Items(ids[..])) && ids.Length > UM_MAX
    modifies ids
    ensures IsList(ids[..])
    ensures rc == if item.mid in Mids(old(Items(ids[..]))) then Duplicate
                  else if old(ids[0].mid) >= 131071 then TooBig else Added
    ensures rc != Added ==> ids[..] == old(ids[..])
    ensures rc == Added ==> InsertedInto(old(Items(ids[..])), item, Items(ids[..])) && Ascending(Items(ids[..]))
  {
    hide Ascending, InsertedInto, Mids;
    ghost var s := Items(ids[..]);
    var x := Search(ids, item.mid);
    var n := ids[0].mid;
    assert forall p :: 1 <= p <= n ==> ids[p] == s[p-1];
    assert forall p :: 0 <= p < x - 1 ==> s[p].mid < item.mid by { assert forall p :: 0 <= p < x - 1 ==> s[p] == ids[p+1]; }
    assert forall p :: x - 1 <= p < n ==> s[p].mid >= item.mid by { assert forall p :: x - 1 <= p < n ==> s[p] == ids[p+1]; }
    PlaceFound(s, x - 1, item.mid);
    if x <= n && ids[x].mid == item.mid {
      return Duplicate;
    }
    if n >= UM_MAX {
      return TooBig;
    }
    ids[0] := Id2(n + 1, ids[0].mptr);
    var i := n + 1;
    while i > x
      invariant x <= i <= n + 1 && ids[0].mid == n + 1
      invariant forall p :: 1 <= p < i ==> p <= n && ids[p] == s[p-1]
      invariant forall p :: i < p <= n + 1 ==> ids[p] == s[p-2]
    {
      ids[i] := ids[i-1];
      i := i - 1;
    }
    ids[x] := item;
    InsertedIs(s, x - 1, item, ids[..]);
    rc := Added;
  }

  predicate InsertedInto(s: seq<Id2>, item: Id2, t: seq<Id2>) {
    exists x :: 0 <= x <= |s| && t == s[..x] + [item] + s[x..]
  }

  lemma InsertedIs(s: seq<Id2>, x: nat, item: Id2, a: seq<Id2>)
    requires x <= |s| && a != [] && a[0].mid == |s| + 1 < |a| && Ascending(s)
    requires forall p :: 1 <= p <= |s| + 1 ==> a[p] == if p <= x then s[p-1] else if p == x + 1 then item else s[p-2]
    requires forall p :: 0 <= p < x ==> s[p].mid < item.mid
    requires forall p :: x <= p < |s| ==> s[p].mid > item.mid
    ensures IsList(a) && InsertedInto(s, item, Items(a)) && Ascending(Items(a))
  {
    assert Items(a) == s[..x] + [item] + s[x..];
    InsertedAscends(s, x, item);
  }

  lemma PlaceFound(s: seq<Id2>, x: nat, id: nat)
    requires Ascending(s) && x <= |s|
    requires forall p :: 0 <= p < x ==> s[p].mid < id
    requires forall p :: x <= p < |s| ==> s[p].mid >= id
    ensures id in Mids(s) <==> x < |s| && s[x].mid == id
    ensures x < |s| && s[x].mid != id ==> forall p :: x <= p < |s| ==> s[p].mid > id
  {
  }

  lemma InsertedAscends(s: seq<Id2>, x: nat, item: Id2)
    requires Ascending(s) && x <= |s|
    requires forall p :: 0 <= p < x ==> s[p].mid < item.mid
    requires forall p :: x <= p < |s| ==> s[p].mid > item.mid
    ensures Ascending(s[..x] + [item] + s[x..])
  {
  }

  // ---- The union of two lists --------------------------------------------------------------

  /** The parent's list `a` with the child's `b` over it, merged from the high end. */
  function Union(a: seq<Id2>, b: seq<Id2>): seq<Id2>
    decreases |a| + |b|
  {
    if b == [] then a
    else if a == [] then b
    else
      var p, c := a[|a|-1], b[|b|-1];
      if c.mid < p.mid then Union(a[..|a|-1], b) + [p]
      else if c.mid == p.mid then Union(a[..|a|-1], b[..|b|-1]) + [c]
      else Union(a, b[..|b|-1]) + [c]
  }

  function Mids(s: seq<Id2>): set<nat> { set i | 0 <= i < |s| :: s[i].mid }

  lemma MidsSnoc(s: seq<Id2>, x: Id2)
    ensures Mids(s + [x]) == Mids(s) + {x.mid}
  {
    var t := s + [x];
    assert t[|s|] == x;
    forall m | m in Mids(s) + {x.mid} ensures m in Mids(t) {
      if m != x.mid { var i :| 0 <= i < |s| && s[i].mid == m; assert t[i].mid == m; }
    }
  }

  /** The pages of the union are those of either list. */
  lemma {:induction false} UnionMids(a: seq<Id2>, b: seq<Id2>)
    ensures Mids(Union(a, b)) == Mids(a) + Mids(b)
    decreases |a| + |b|
  {
    if a != [] && b != [] {
      var a', b', p, c := a[..|a|-1], b[..|b|-1], a[|a|-1], b[|b|-1];
      MidsSnoc(a', p);
      MidsSnoc(b', c);
      assert a == a' + [p] && b == b' + [c];
      if c.mid < p.mid {
        UnionMids(a', b);
        MidsSnoc(Union(a', b), p);
      } else if c.mid == p.mid {
        UnionMids(a', b');
        MidsSnoc(Union(a', b'), c);
      } else {
        UnionMids(a, b');
        MidsSnoc(Union(a, b'), c);
      }
    }
  }

  lemma BelowLast(s: seq<Id2>, m: nat)
    requires s != [] && Ascending(s) && m in Mids(s[..|s|-1])
    ensures m < s[|s|-1].mid
  {
    var i :| 0 <= i < |s| - 1 && s[i].mid == m;
  }

  lemma AscendingSnoc(s: seq<Id2>, x: Id2)
    requires Ascending(s) && forall m :: m in Mids(s) ==> m < x.mid
    ensures Ascending(s + [x])
  {
    forall i | 0 <= i < |s| ensures s[i].mid < x.mid { assert s[i].mid in Mids(s); }
  }

  /** The union ascends strictly. */
  lemma {:induction false} UnionAscends(a: seq<Id2>, b: seq<Id2>)
    requires Ascending(a) && Ascending(b)
    ensures Ascending(Union(a, b))
    decreases |a| + |b|
  {
    hide Mids, Ascending;
    if a != [] && b != [] {
      var a', b', p, c := a[..|a|-1], b[..|b|-1], a[|a|-1], b[|b|-1];
      Shorter(a);
      Shorter(b);
      assert a == a' + [p] && b == b' + [c];
      MidsSnoc(a', p);
      MidsSnoc(b', c);
      forall m | m in Mids(a') ensures m < p.mid { BelowLast(a, m); }
      forall m | m in Mids(b') ensures m < c.mid { BelowLast(b, m); }
      if c.mid < p.mid {
        UnionAscends(a', b);
        UnionMids(a', b);
        AscendingSnoc(Union(a', b), p);
      } else if c.mid == p.mid {
        UnionAscends(a', b');
        UnionMids(a', b');
        AscendingSnoc(Union(a', b'), c);
      } else {
        UnionAscends(a, b');
        UnionMids(a, b');
        AscendingSnoc(Union(a, b'), c);
      }
    }
  }

  lemma NoMids()
    ensures Mids([]) == {}
  {
  }

  lemma Shorter(s: seq<Id2>)
    requires s != [] && Ascending(s)
    ensures Ascending(s[..|s|-1])
  {
  }

  lemma InMids(s: seq<Id2>, x: Id2)
    ensures x in s ==> x.mid in Mids(s)
  {
    if x in s { var i :| 0 <= i < |s| && s[i] == x; }
  }

  /** Where both have a page the child's copy is kept; where only one has it, that one's. */
  lemma {:induction false} ChildWins(a: seq<Id2>, b: seq<Id2>, x: Id2)
    requires Ascending(a) && Ascending(b)
    ensures x in Union(a, b) <==> x in b || (x in a && x.mid !in Mids(b))
    decreases |a| + |b|
  {
    hide Mids, Ascending;
    if b == [] {
      assert Mids(b) == {} by { NoMids(); }
    } else if a != [] {
      var a', b', p, c := a[..|a|-1], b[..|b|-1], a[|a|-1], b[|b|-1];
      Shorter(a);
      Shorter(b);
      assert a == a' + [p] && b == b' + [c];
      MidsSnoc(b', c);
      forall m | m in Mids(a') ensures m < p.mid { BelowLast(a, m); }
      forall m | m in Mids(b') ensures m < c.mid { BelowLast(b, m); }
      InMids(a', x);
      InMids(b', x);
      if c.mid < p.mid {
        ChildWins(a', b, x);
      } else if c.mid == p.mid {
        ChildWins(a', b', x);
      } else {
        ChildWins(a, b', x);
      }
    }
  }

  lemma {:induction false} MidsCount(s: seq<Id2>)
    requires Ascending(s)
    ensures |Mids(s)| == |s|
  {
    if s != [] {
      var t, x := s[..|s|-1], s[|s|-1];
      assert s == t + [x];
      MidsSnoc(t, x);
      MidsCount(t);
      if x.mid in Mids(t) { BelowLast(s, x.mid); }
    }
  }

  lemma UnionLength(a: seq<Id2>, b: seq<Id2>)
    requires Ascending(a) && Ascending(b)
    ensures |Union(a, b)| == |Mids(a) + Mids(b)|
  {
    UnionAscends(a, b);
    UnionMids(a, b);
    MidsCount(Union(a, b));
  }

  // ---- The merge at a nested commit --------------------------------------------------------

  /** The loop's state: `a[..x]` and `b[..y]` are left, `done` stands behind place `i`. */
  ghost predicate Merging(dst: seq<Id2>, a: seq<Id2>, b: seq<Id2>, x: nat, y: nat, i: nat, len: nat, done: seq<Id2>) {
    && len < |dst| && x <= |a| && y <= |b| && x <= i <= len
    && dst[1..x+1] == a[..x] && dst[i+1..len+1] == done
    && Union(a, b) == Union(a[..x], b[..y]) + done && i == |Union(a[..x], b[..y])|
  }

  lemma UnionLast(a: seq<Id2>, b: seq<Id2>, x: nat, y: nat)
    requires 0 < x <= |a| && 0 < y <= |b|
    ensures var p, c := a[x-1], b[y-1];
            Union(a[..x], b[..y]) ==
            if c.mid < p.mid then Union(a[..x-1], b[..y]) + [p]
            else if c.mid == p.mid then Union(a[..x-1], b[..y-1]) + [c]
            else Union(a[..x], b[..y-1]) + [c]
  {
    assert a[..x][..x-1] == a[..x-1] && b[..y][..y-1] == b[..y-1];
  }

  lemma UnionNone(a: seq<Id2>, b: seq<Id2>, x: nat, y: nat)
    requires x <= |a| && y <= |b|
    ensures Union(a[..x], b[..0]) == a[..x]
    ensures y > 0 ==> Union(a[..0], b[..y]) == Union(a[..0], b[..y-1]) + [b[y-1]]
  {
    if y > 0 { assert b[..y] == b[..y-1] + [b[y-1]]; }
  }

  /** A union is as long as either list at least. */
  lemma {:induction false} UnionAtLeast(a: seq<Id2>, b: seq<Id2>)
    ensures |Union(a, b)| >= |a| && |Union(a, b)| >= |b|
    decreases |a| + |b|
  {
    if a != [] && b != [] {
      var a', b' := a[..|a|-1], b[..|b|-1];
      if b[|b|-1].mid < a[|a|-1].mid {
        UnionAtLeast(a', b);
      } else if b[|b|-1].mid == a[|a|-1].mid {
        UnionAtLeast(a', b');
      } else {
        UnionAtLeast(a, b');
      }
    }
  }

  /** Moving one of the parent's pages up: its target is its own place or one that has been read. */
  lemma MoveParent(dst: seq<Id2>, a: seq<Id2>, b: seq<Id2>, x: nat, y: nat, i: nat, len: nat, done: seq<Id2>)
    requires Merging(dst, a, b, x, y, i, len, done) && 0 < x && 0 < y && b[y-1].mid < a[x-1].mid
    ensures i >= x > 0 && i < |dst| && dst[x] == a[x-1]
    ensures Merging(dst[i := dst[x]], a, b, x - 1, y, i - 1, len, [dst[x]] + done)
  {
    hide Union;
    UnionLast(a, b, x, y);
    UnionAtLeast(a[..x-1], b[..y]);
    assert dst[1..x+1][x-1] == a[..x][x-1];
    var next := dst[i := dst[x]];
    assert next[1..x] == dst[1..x+1][..x-1] == a[..x][..x-1] == a[..x-1];
    assert next[i..len+1] == [dst[x]] + dst[i+1..len+1] == [dst[x]] + done;
    assert (Union(a[..x-1], b[..y]) + [a[x-1]]) + done == Union(a[..x-1], b[..y]) + ([a[x-1]] + done);
  }

  /** Writing the child's page, after dropping the parent's copy of it if there is one. */
  lemma MoveChild(dst: seq<Id2>, a: seq<Id2>, b: seq<Id2>, x: nat, y: nat, i: nat, len: nat, done: seq<Id2>)
    requires Merging(dst, a, b, x, y, i, len, done) && 0 < y && (x > 0 ==> b[y-1].mid >= a[x-1].mid)
    ensures var x' := if x > 0 && b[y-1].mid == a[x-1].mid then x - 1 else x;
            x' < i < |dst| && Merging(dst[i := b[y-1]], a, b, x', y - 1, i - 1, len, [b[y-1]] + done)
  {
    hide Union;
    var x' := if x > 0 && b[y-1].mid == a[x-1].mid then x - 1 else x;
    var c := b[y-1];
    if x > 0 { UnionLast(a, b, x, y); } else { UnionNone(a, b, x, y); }
    UnionAtLeast(a[..x'], b[..y-1]);
    var next := dst[i := c];
    assert next[1..x'+1] == dst[1..x+1][..x'] == a[..x][..x'] == a[..x'];
    assert next[i..len+1] == [c] + dst[i+1..len+1] == [c] + done;
    assert (Union(a[..x'], b[..y-1]) + [c]) + done == Union(a[..x'], b[..y-1]) + ([c] + done);
  }

  lemma ParentPage(dst: seq<Id2>, a: seq<Id2>, b: seq<Id2>, x: nat, y: nat, i: nat, len: nat, done: seq<Id2>)
    requires Merging(dst, a, b, x, y, i, len, done)
    ensures x < |dst| && (x > 0 ==> dst[x] == a[x-1])
  {
    if x > 0 { assert dst[1..x+1][x-1] == a[..x][x-1]; }
  }

  lemma MergeStarts(dst: seq<Id2>, a: seq<Id2>, b: seq<Id2>, len: nat)
    requires len == |Union(a, b)| < |dst| && |a| < |dst| && dst[1..|a|+1] == a
    ensures Merging(dst, a, b, |a|, |b|, len, len, [])
  {
    UnionAtLeast(a, b);
    assert a[..|a|] == a && b[..|b|] == b && Union(a, b) + [] == Union(a, b);
  }

  lemma MergeEnds(dst: seq<Id2>, a: seq<Id2>, b: seq<Id2>, x: nat, i: nat, len: nat, done: seq<Id2>)
    requires Merging(dst, a, b, x, 0, i, len, done)
    ensures i == x && dst[1..len+1] == Union(a, b)
  {
    UnionNone(a, b, x, 0);
    assert dst[1..len+1] == dst[1..x+1] + dst[x+1..len+1];
  }

  /** Merge the child's dirty list into the parent's, in place from the end; `len` is the length of the union. */
  method MergeDirty(dst: array<Id2>, src: array<Id2>, len: nat)
    requires dst != src && IsList(dst[..]) && IsList(src[..])
    requires Ascending(Items(dst[..])) && Ascending(Items(src[..]))
    requires len == |Union(Items(dst[..]), Items(src[..]))| < dst.Length && forall k :: 1 <= k <= src[0].mid ==> src[k].mid > 0
    modifies dst
    ensures IsList(dst[..]) && Items(dst[..]) == Union(old(Items(dst[..])), Items(src[..])) && Ascending(Items(dst[..]))
  {
    hide Union, Merging, Ascending;
    ghost var a, b, done: seq<Id2> := Items(dst[..]), Items(src[..]), [];
    var x: nat, y: nat, i: nat := dst[0].mid, src[0].mid, len;
    dst[0] := Id2(0, dst[0].mptr);
    MergeStarts(dst[..], a, b, len);
    while y > 0
      invariant 0 <= y <= |b| && x <= |a| && dst[0].mid == 0
      invariant Merging(dst[..], a, b, x, y, i, len, done)
    {
      assert src[y] == b[y-1];
      var yp := src[y].mid;
      ParentPage(dst[..], a, b, x, y, i, len, done);
      while yp < dst[x].mid
        invariant 0 <= x <= |a| && x < dst.Length && dst[0].mid == 0 && (x > 0 ==> dst[x] == a[x-1])
        invariant Merging(dst[..], a, b, x, y, i, len, done)
        decreases x
      {
        MoveParent(dst[..], a, b, x, y, i, len, done);
        done := [dst[x]] + done;
        dst[i] := dst[x];
        i := i - 1;
        x := x - 1;
        ParentPage(dst[..], a, b, x, y, i, len, done);
      }
      MoveChild(dst[..], a, b, x, y, i, len, done);
      if yp == dst[x].mid {
        x := x - 1;
      }
      done := [src[y]] + done;
      dst[i] := src[y];
      i := i - 1;
      y := y - 1;
    }
    MergeEnds(dst[..], a, b, x, i, len, done);
    UnionAscends(a, b);
    dst[0] := Id2(len, dst[0].mptr);
    assert Items(dst[..]) == dst[1..len+1];
  }

  // ---- Both ways to know the length --------------------------------------------------------

  lemma NoParent(b: seq<Id2>, y: nat)
    requires y <= |b|
    ensures forall a: seq<Id2> :: Union(a[..0], b[..y]) == b[..y]
  {
  }

  /** The child's pages above all of the parent's are not shared. */
  lemma {:induction false} AboveAll(a: seq<Id2>, b: seq<Id2>, y: nat)
    requires y <= |b| && forall p :: y <= p < |b| ==> a == [] || b[p].mid > a[|a|-1].mid
    ensures |Union(a, b)| == |Union(a, b[..y])| + |b| - y
    decreases |b|
  {
    if y < |b| {
      var c := b[..|b|-1];
      AboveAll(a, c, y);
      assert c[..y] == b[..y];
    } else {
      assert b[..y] == b;
    }
  }

  lemma {:induction false} UnionAtMost(a: seq<Id2>, b: seq<Id2>)
    ensures |Union(a, b)| <= |a| + |b|
    decreases |a| + |b|
  {
    if a != [] && b != [] {
      var a', b' := a[..|a|-1], b[..|b|-1];
      if b[|b|-1].mid < a[|a|-1].mid {
        UnionAtMost(a', b);
      } else if b[|b|-1].mid == a[|a|-1].mid {
        UnionAtMost(a', b');
      } else {
        UnionAtMost(a, b');
      }
    }
  }

  /** Count the union before merging, for a parent that is itself nested: the child's pages that the parent has too
      are counted once. */
  method UnionSize(dst: array<Id2>, src: array<Id2>) returns (len: nat)
    requires dst != src && IsList(dst[..]) && IsList(src[..]) && forall k :: 1 <= k <= src[0].mid ==> src[k].mid > 0
    requires Ascending(Items(dst[..])) && Ascending(Items(src[..]))
    modifies dst
    ensures len == |Union(old(Items(dst[..])), Items(src[..]))|
    ensures dst[..] == old(dst[..])[0 := Id2(0, dst[0].mptr)]
  {
    hide Union, Ascending;
    ghost var a, b := Items(dst[..]), Items(src[..]);
    var x := dst[0].mid;
    dst[0] := Id2(0, dst[0].mptr);
    assert forall k :: 1 <= k <= x ==> dst[k] == a[k-1];
    assert forall k :: 1 <= k <= |b| ==> src[k] == b[k-1];
    len := x + src[0].mid;
    var above := Search(src, dst[x].mid + 1);
    var y: nat := above - 1;
    var i: nat := x;
    assert a[..x] == a;
    AboveAll(a, b, y);
    ghost var frozen := dst[..];
    while y > 0 && i > 0
      invariant 0 <= y <= |b| && 0 <= i <= x && dst[..] == frozen
      invariant len + (|Union(a[..i], b[..y])| - (i + y)) == |Union(a, b)|
      invariant dst[0].mid == 0 && forall k :: 1 <= k <= x ==> dst[k] == a[k-1]
      decreases y
    {
      var yp := src[y].mid;
      while yp < dst[i].mid
        invariant 0 <= i <= x && dst[..] == frozen
        invariant len + (|Union(a[..i], b[..y])| - (i + y)) == |Union(a, b)|
        decreases i
      {
        UnionLast(a, b, i, y);
        i := i - 1;
      }
      if i > 0 { UnionLast(a, b, i, y); } else { UnionNone(a, b, i, y); }
      if yp == dst[i].mid {
        UnionAtMost(a[..i-1], b[..y-1]);
        i := i - 1;
        len := len - 1;
      }
      y := y - 1;
    }
    UnionNone(a, b, i, 0);
    NoParent(b, y);
  }

  /** The dirty pages of a nested transaction: its parent's, its own, and the room it counts down. */
  datatype Nested = Nested(parent: set<nat>, own: set<nat>, room: int)

  /** A page is allocated (and counted), or a page the parent has is copied (and not counted). */
  datatype Dirtying = Allocate(page: nat) | CopyFromParent(page: nat)

  predicate CanDirty(n: Nested, d: Dirtying) {
    match d
    case Allocate(p) => p !in n.parent && p !in n.own
    case CopyFromParent(p) => p in n.parent && p !in n.own
  }

  function Dirtied(n: Nested, d: Dirtying): Nested {
    n.(own := n.own + {d.page}, room := if d.Allocate? then n.room - 1 else n.room)
  }

  ghost predicate Steps(states: seq<Nested>, ds: seq<Dirtying>) {
    |states| == |ds| + 1
    && forall i :: 0 <= i < |ds| ==> CanDirty(states[i], ds[i]) && states[i+1] == Dirtied(states[i], ds[i])
  }

  /** A nested transaction starts with its parent's room and no page of its own; from then on the room left is what the
      union of both lists leaves of a full list, so that a single parent's merge can take the length from it. */
  lemma {:induction false} RoomIsUnion(states: seq<Nested>, ds: seq<Dirtying>, i: nat)
    requires Steps(states, ds) && i < |states|
    requires states[0].own == {} && states[0].room == UM_MAX - |states[0].parent|
    ensures states[i].parent == states[0].parent && UM_MAX - states[i].room == |states[i].parent + states[i].own|
  {
    if i == 0 {
      assert states[0].parent + {} == states[0].parent;
    } else {
      RoomIsUnion(states, ds, i - 1);
      var n, d := states[i-1], ds[i-1];
      assert CanDirty(n, d) && states[i] == Dirtied(n, d);
      assert states[i].parent + states[i].own == (n.parent + n.own) + {d.page};
      if d.CopyFromParent? { assert (n.parent + n.own) + {d.page} == n.parent + n.own; }
    }
  }

  /** The length a merge with a single ancestor uses is that of the union of the two lists. */
  lemma RoomIsLength(a: seq<Id2>, b: seq<Id2>, states: seq<Nested>, ds: seq<Dirtying>)
    requires Ascending(a) && Ascending(b) && Steps(states, ds)
    requires states[0].own == {} && states[0].room == UM_MAX - |states[0].parent|
    requires states[|ds|].parent == Mids(a) && states[|ds|].own == Mids(b)
    ensures UM_MAX - states[|ds|].room == |Union(a, b)|
  {
    RoomIsUnion(states, ds, |ds|);
    UnionLength(a, b);
  }
}
