/** ID lists: arrays with their length in slot 0, kept descending and changed in place (midl.c). */
module IdList {
  import opened IdSort

  const MAX_ID: nat := 0xFFFF_FFFF_FFFF_FFFF
  const UM_MAX := 131071

  /** Strictly descending: how freeDB records and the reusable pages are kept. */
  predicate Descending(s: seq<nat>) {
    forall i, j :: 0 <= i < j < |s| ==> s[i] > s[j]
  }

  predicate NonAscending(s: seq<nat>) {
    forall i, j :: 0 <= i < j < |s| ==> s[i] >= s[j]
  }

  /** A list with its count in slot 0, inside an array that may be longer. */
  predicate IsList(a: seq<nat>) {
    a != [] && a[0] < |a|
  }

  function Items(a: seq<nat>): (s: seq<nat>)
    requires IsList(a)
    ensures |s| == a[0]
  {
    a[1..a[0] + 1]
  }

  // ---- Search ------------------------------------------------------------------------------

  /** The first position whose id is not above the key; one past the end when there is none. */
  method Search(ids: array<nat>, id: nat) returns (cursor: nat)
    requires IsList(ids[..]) && Descending(Items(ids[..]))
    ensures 1 <= cursor <= ids[0] + 1
    ensures forall j :: 1 <= j < cursor ==> ids[j] > id
    ensures forall j :: cursor <= j <= ids[0] ==> ids[j] <= id
  {
    var base, n, val: int := 0, ids[0], 0;
    cursor := 1;
    var count := ids[0];
    ghost var s := Items(ids[..]);
    assert forall j :: 1 <= j <= count ==> ids[j] == s[j-1];
    while 0 < n
      invariant 0 <= base && 0 <= n && base + n <= count
      invariant forall j :: 1 <= j <= base ==> ids[j] > id
      invariant forall j :: base + n < j <= count ==> ids[j] < id
      invariant (val == 0 && base == 0 && n == count && cursor == 1) || (val < 0 && cursor == base + n + 1) || (val > 0 && cursor == base)
    {
      var pivot := n / 2;
      cursor := base + pivot + 1;
      val := if ids[cursor] < id then -1 else if ids[cursor] > id then 1 else 0;
      if val < 0 {
        n := pivot;
      } else if val > 0 {
        base := cursor;
        n := n - (pivot + 1);
      } else {
        return;
      }
    }
    if val > 0 {
      cursor := cursor + 1;
    }
  }

  // ---- Merge -------------------------------------------------------------------------------

  /** Merging from the small end, as the in-place loop does. */
  function Merged(a: seq<nat>, b: seq<nat>): (m: seq<nat>)
    ensures |m| == |a| + |b|
    decreases |a| + |b|
  {
    if a == [] then b
    else if b == [] then a
    else if a[|a|-1] < b[|b|-1] then Merged(a[..|a|-1], b) + [a[|a|-1]]
    else Merged(a, b[..|b|-1]) + [b[|b|-1]]
  }

  lemma SplitLast(s: seq<nat>)
    requires s != []
    ensures s == s[..|s|-1] + [s[|s|-1]] && multiset(s) == multiset(s[..|s|-1]) + multiset{s[|s|-1]}
  {
    assert s == s[..|s|-1] + [s[|s|-1]];
  }

  /** A merge holds exactly the ids of both lists. */
  lemma {:induction false} MergedContents(a: seq<nat>, b: seq<nat>)
    ensures multiset(Merged(a, b)) == multiset(a) + multiset(b)
    decreases |a| + |b|
  {
    if a != [] && b != [] {
      SplitLast(a);
      SplitLast(b);
      if a[|a|-1] < b[|b|-1] {
        MergedContents(a[..|a|-1], b);
      } else {
        MergedContents(a, b[..|b|-1]);
      }
    }
  }

  predicate AllAtLeast(s: seq<nat>, x: nat) { forall i :: 0 <= i < |s| ==> s[i] >= x }

  lemma {:induction false} MergedBound(a: seq<nat>, b: seq<nat>, x: nat)
    requires AllAtLeast(a, x) && AllAtLeast(b, x)
    ensures AllAtLeast(Merged(a, b), x)
    decreases |a| + |b|
  {
    if a != [] && b != [] {
      if a[|a|-1] < b[|b|-1] { MergedBound(a[..|a|-1], b, x); } else { MergedBound(a, b[..|b|-1], x); }
    }
  }

  /** Merging descending lists gives a descending list. */
  lemma {:induction false} MergedOrder(a: seq<nat>, b: seq<nat>)
    requires NonAscending(a) && NonAscending(b)
    ensures NonAscending(Merged(a, b))
    decreases |a| + |b|
  {
    if a != [] && b != [] {
      var x, y := a[|a|-1], b[|b|-1];
      if x < y {
        MergedOrder(a[..|a|-1], b);
        MergedBound(a[..|a|-1], b, x);
      } else {
        MergedOrder(a, b[..|b|-1]);
        MergedBound(a, b[..|b|-1], y);
      }
    }
  }

  /** Lists without a common id merge into a strictly descending one. */
  lemma MergedStrict(a: seq<nat>, b: seq<nat>)
    requires Descending(a) && Descending(b) && forall i, j :: 0 <= i < |a| && 0 <= j < |b| ==> a[i] != b[j]
    ensures Descending(Merged(a, b))
  {
    MergedOrder(a, b);
    MergedContents(a, b);
    var m := Merged(a, b);
    forall i, j | 0 <= i < j < |m| ensures m[i] > m[j] {
      if m[i] == m[j] {
        Twice(m, i, j);
        OnceEach(a, m[i]);
        OnceEach(b, m[i]);
      }
    }
  }

  lemma Twice(s: seq<nat>, i: nat, j: nat)
    requires i < j < |s| && s[i] == s[j]
    ensures multiset(s)[s[i]] >= 2
  {
    assert s == s[..i] + [s[i]] + s[i+1..j] + [s[j]] + s[j+1..];
  }

  lemma {:induction false} OnceEach(s: seq<nat>, x: nat)
    requires Descending(s)
    ensures multiset(s)[x] == if x in s then 1 else 0
  {
    if s != [] {
      SplitLast(s);
      OnceEach(s[..|s|-1], x);
      if x in s[..|s|-1] { var i :| 0 <= i < |s| - 1 && s[i] == x; }
    }
  }

  /** The ids below `id` at the end of positions 1 to `j0` have been moved to the end of 1 to `k0`. */
  predicate Slid(before: seq<nat>, after: seq<nat>, j0: nat, k0: nat, j: nat, k: nat, id: nat) {
    && |after| == |before| && j <= j0 <= k0 < |before| && j <= k <= k0
    && after[..j+1] == before[..j+1] && after[k+1..k0+1] == before[j+1..j0+1] && after[k0+1..] == before[k0+1..]
    && after[j] >= id && forall x :: j < x <= j0 ==> before[x] < id
  }

  /** Move the ids below `mergeId` from position `j` down to position `k`; the sentinel in slot 0 ends the scan. */
  method MoveBelow(idl: array<nat>, j0: nat, k0: nat, mergeId: nat) returns (j: nat, k: nat)
    requires j0 < k0 < idl.Length && mergeId <= MAX_ID && idl[0] == MAX_ID
    modifies idl
    ensures j <= j0 && k0 - k == j0 - j && idl[0] == MAX_ID
    ensures Slid(old(idl[..]), idl[..], j0, k0, j, k, mergeId)
    ensures forall x :: k0 < x < idl.Length ==> idl[x] == old(idl[x])
  {
    hide Slid;
    j, k := j0, k0;
    var oldId := idl[j];
    while oldId < mergeId
      invariant 0 <= j <= j0 && k0 - k == j0 - j && oldId == idl[j]
      invariant forall x :: 0 <= x <= k ==> idl[x] == old(idl[x])
      invariant forall x :: k < x <= k0 ==> idl[x] == old(idl[x - (k0 - j0)])
      invariant forall x :: k0 < x < idl.Length ==> idl[x] == old(idl[x])
      invariant forall x :: j < x <= j0 ==> old(idl[x]) < mergeId
      decreases j
    {
      idl[k] := oldId;
      k := k - 1;
      j := j - 1;
      oldId := idl[j];
    }
    SlidByIndex(old(idl[..]), idl[..], j0, k0, j, k, mergeId);
  }

  lemma SlidByIndex(before: seq<nat>, after: seq<nat>, j0: nat, k0: nat, j: nat, k: nat, id: nat)
    requires |after| == |before| && j <= j0 <= k0 < |before| && k0 - k == j0 - j && k >= j
    requires forall x :: 0 <= x <= k ==> after[x] == before[x]
    requires forall x :: k < x <= k0 ==> after[x] == before[x - (k0 - j0)]
    requires forall x :: k0 < x < |before| ==> after[x] == before[x]
    requires after[j] >= id && forall x :: j < x <= j0 ==> before[x] < id
    ensures Slid(before, after, j0, k0, j, k, id)
  {
  }

  /** Merge a list into another one in place, from the end; slot 0 serves as the sentinel. The merged list may
      lie in the tail of the same array, out of reach of the writes. */
  method XMerge(idl: array<nat>, merge: array<nat>, at: nat)
    requires IsList(idl[..]) && at < merge.Length && at + merge[at] < merge.Length
    requires idl[0] + merge[at] < idl.Length && (idl == merge ==> idl[0] + merge[at] < at)
    requires forall i :: at < i <= at + merge[at] ==> merge[i] <= MAX_ID
    modifies idl
    ensures IsList(idl[..]) && Items(idl[..]) == Merged(old(Items(idl[..])), old(merge[at + 1..at + 1 + merge[at]]))
    ensures idl[old(idl[0] + merge[at]) + 1..] == old(idl[idl[0] + merge[at] + 1..])
  {
    hide MergeState, Slid, Merged;
    ghost var a, b := Items(idl[..]), merge[at + 1..at + 1 + merge[at]];
    var i, j := merge[at], idl[0];
    var k := i + j;
    var total := k;
    ghost var tail, done: seq<nat> := idl[total+1..], [];
    forall x | 0 <= x < |b| ensures b[x] <= MAX_ID { assert b[x] == merge[at + 1 + x]; }
    idl[0] := MAX_ID;
    MergeStart(idl[..], a, b, total, tail);
    while 0 < i
      invariant 0 <= i <= |b| && 0 <= j <= |a| && k == i + j && idl[0] == MAX_ID && total < idl.Length
      invariant forall x :: 0 <= x < |b| ==> merge[at + 1 + x] == b[x]
      invariant idl != merge ==> merge[..] == old(merge[..])
      invariant MergeState(idl[..], a, b, i, j, total, done, tail)
    {
      ghost var before, j0, k0 := idl[..], j, k;
      var mergeId := merge[at + i];
      assert mergeId == b[i-1];
      j, k := MoveBelow(idl, j, k, mergeId);
      ghost var after := idl[..];
      idl[k] := mergeId;
      MergeStep(before, after, idl[..], a, b, i, j0, j, total, done, tail);
      done := [mergeId] + (a[j..j0] + done);
      i := i - 1;
      k := k - 1;
    }
    MergeEnd(idl[..], a, b, j, total, done, tail);
    idl[0] := total;
    assert Items(idl[..]) == idl[1..total+1];
  }

  /** The loop of the merge: what is left of `a` and `b`, and what has been written behind it. */
  predicate MergeState(s: seq<nat>, a: seq<nat>, b: seq<nat>, i: nat, j: nat, total: nat, done: seq<nat>, tail: seq<nat>) {
    && total < |s| && i + j <= total && j <= |a| && i <= |b|
    && s[1..j+1] == a[..j] && s[i+j+1..total+1] == done && s[total+1..] == tail
    && Merged(a, b) == Merged(a[..j], b[..i]) + done
  }

  lemma MergeStart(s: seq<nat>, a: seq<nat>, b: seq<nat>, total: nat, tail: seq<nat>)
    requires total == |a| + |b| < |s| && s[1..|a|+1] == a && s[total+1..] == tail
    ensures MergeState(s, a, b, |b|, |a|, total, [], tail)
  {
    hide Merged;
    assert a[..|a|] == a && b[..|b|] == b && Merged(a, b) + [] == Merged(a, b);
  }

  lemma MergeEnd(s: seq<nat>, a: seq<nat>, b: seq<nat>, j: nat, total: nat, done: seq<nat>, tail: seq<nat>)
    requires MergeState(s, a, b, 0, j, total, done, tail)
    ensures total == |a| + |b| ==> s[1..total+1] == Merged(a, b)
    ensures s[total+1..] == tail
  {
    hide Merged;
    MergeRest(a, b, j, done);
    assert s[1..total+1] == s[1..j+1] + s[j+1..total+1];
  }

  lemma MergeStep(before: seq<nat>, after: seq<nat>, next: seq<nat>, a: seq<nat>, b: seq<nat>, i: nat, j0: nat, j: nat,
                  total: nat, done: seq<nat>, tail: seq<nat>)
    requires MergeState(before, a, b, i, j0, total, done, tail) && 0 < i && j <= j0
    requires Slid(before, after, j0, i + j0, j, i + j, b[i-1]) && next == after[i + j := b[i-1]]
    ensures MergeState(next, a, b, i - 1, j, total, [b[i-1]] + (a[j..j0] + done), tail)
  {
    hide Merged;
    Moved(before, after, a, j0, i + j0, j, i + j, total, done);
    forall x | j <= x < j0 ensures a[x] < b[i-1] { assert before[1..j0+1][x] == a[..j0][x]; }
    MergeOlds(a, b, j0, j, i, done);
    if j > 0 { assert after[1..j+1][j-1] == a[..j][j-1]; }
    MergeNew(a, b, j, i, a[j..j0] + done);
    assert next[1..j+1] == after[1..j+1];
    assert next[i+j..total+1] == [b[i-1]] + after[i+j+1..total+1];
    assert next[total+1..] == after[total+1..];
  }

  lemma Moved(before: seq<nat>, after: seq<nat>, a: seq<nat>, j0: nat, k0: nat, j: nat, k: nat, total: nat, done: seq<nat>)
    requires |after| == |before| && j <= j0 < k0 <= total < |before| && k0 - k == j0 - j && j0 <= |a| && k >= j
    requires after[..j+1] == before[..j+1] && after[k+1..k0+1] == before[j+1..j0+1] && after[k0+1..] == before[k0+1..]
    requires before[1..j0+1] == a[..j0] && before[k0+1..total+1] == done
    ensures after[1..j+1] == a[..j] && after[k+1..total+1] == a[j..j0] + done && after[total+1..] == before[total+1..]
  {
    assert before[1..j0+1][..j] == before[1..j+1] && before[1..j0+1][j..] == before[j+1..j0+1];
    assert after[..j+1][1..] == after[1..j+1] && before[..j+1][1..] == before[1..j+1];
    assert after[k0+1..][..total-k0] == after[k0+1..total+1] && before[k0+1..][..total-k0] == before[k0+1..total+1];
    assert after[k+1..total+1] == after[k+1..k0+1] + after[k0+1..total+1];
    assert after[k0+1..][total-k0..] == after[total+1..] && before[k0+1..][total-k0..] == before[total+1..];
  }

  lemma {:induction false} MergeOlds(a: seq<nat>, b: seq<nat>, j0: nat, j: nat, i: nat, done: seq<nat>)
    requires j <= j0 <= |a| && 0 < i <= |b| && forall x :: j <= x < j0 ==> a[x] < b[i-1]
    ensures Merged(a[..j0], b[..i]) + done == Merged(a[..j], b[..i]) + (a[j..j0] + done)
    decreases j0
  {
    hide Merged;
    if j < j0 {
      MergeOld(a, b, j0, i, done);
      MergeOlds(a, b, j0 - 1, j, i, [a[j0-1]] + done);
      assert a[j..j0-1] + ([a[j0-1]] + done) == a[j..j0] + done;
    } else {
      assert a[j..j0] + done == done;
    }
  }

  lemma MergeOld(a: seq<nat>, b: seq<nat>, j: nat, i: nat, done: seq<nat>)
    requires 0 < j <= |a| && 0 < i <= |b| && a[j-1] < b[i-1]
    ensures Merged(a[..j], b[..i]) + done == Merged(a[..j-1], b[..i]) + ([a[j-1]] + done)
  {
    assert a[..j][..j-1] == a[..j-1];
    assert (Merged(a[..j-1], b[..i]) + [a[j-1]]) + done == Merged(a[..j-1], b[..i]) + ([a[j-1]] + done);
  }

  lemma MergeNew(a: seq<nat>, b: seq<nat>, j: nat, i: nat, done: seq<nat>)
    requires j <= |a| && 0 < i <= |b| && (j > 0 ==> a[j-1] >= b[i-1])
    ensures Merged(a[..j], b[..i]) + done == Merged(a[..j], b[..i-1]) + ([b[i-1]] + done)
  {
    assert b[..i][..i-1] == b[..i-1];
    assert b[..i] == b[..i-1] + [b[i-1]];
    assert (Merged(a[..j], b[..i-1]) + [b[i-1]]) + done == Merged(a[..j], b[..i-1]) + ([b[i-1]] + done);
  }

  lemma MergeRest(a: seq<nat>, b: seq<nat>, j: nat, done: seq<nat>)
    requires j <= |a|
    ensures Merged(a[..j], b[..0]) + done == a[..j] + done
  {
  }

  // ---- Growing -----------------------------------------------------------------------------

  /** Ids the array has room for; slot 0 holds the count. */
  function Room(ids: array<nat>): nat
    requires ids.Length > 0
  {
    ids.Length - 1
  }

  method Regrown(ids: array<nat>, room: nat) returns (grown: array<nat>)
    requires IsList(ids[..]) && room >= Room(ids)
    ensures fresh(grown) && grown.Length == room + 1 && grown[..ids.Length] == ids[..]
    ensures IsList(grown[..]) && Items(grown[..]) == Items(ids[..])
  {
    grown := new nat[room + 1];
    forall i | 0 <= i < ids.Length {
      grown[i] := ids[i];
    }
    assert grown[1..grown[0] + 1] == ids[1..ids[0] + 1];
  }

  lemma Counted(a: seq<nat>)
    requires IsList(a)
    ensures a != []
  {
  }

  lemma WholeBlocks(words: nat)
    ensures words % 256 < 256 && (words - words % 256) % 256 == 0
  {
  }

  /** Make room for `num` more ids; the size grows by a quarter and is rounded to whole blocks of 256 words. */
  method Need(ids: array<nat>, num: nat) returns (grown: array<nat>)
    requires IsList(ids[..])
    ensures IsList(grown[..]) && Items(grown[..]) == Items(ids[..]) && Room(grown) >= ids[0] + num
    ensures grown == ids || (fresh(grown) && (Room(grown) + 2) % 256 == 0)
  {
    hide IsList, Items;
    Counted(ids[..]);
    var total := num + ids[0];
    if total <= Room(ids) {
      return ids;
    }
    var words := total + total / 4 + (256 + 2);
    WholeBlocks(words);
    words := words - words % 256;
    grown := Regrown(ids, words - 2);
  }

  /** Pages `id` to `id + n - 1`, the highest first. */
  function RunDown(id: nat, n: nat): (s: seq<nat>)
    ensures |s| == n && forall k :: 0 <= k < n ==> s[k] == id + n - 1 - k
  {
    seq(n, k requires 0 <= k < n => id + n - 1 - k)
  }

  /** Append a range of pages, written from its end (mdb_midl_append_range). */
  method AppendRange(ids: array<nat>, id0: nat, n0: nat) returns (grown: array<nat>)
    requires IsList(ids[..])
    modifies ids
    ensures grown == ids || fresh(grown)
    ensures IsList(grown[..]) && Items(grown[..]) == old(Items(ids[..])) + RunDown(id0, n0)
  {
    grown := ids;
    var len, n := ids[0], n0;
    if len + n > Room(ids) {
      var more := n - n % (UM_MAX + 1) + UM_MAX;
      grown := Regrown(ids, Room(ids) + more);
    }
    ghost var items := Items(grown[..]);
    grown[0] := len + n;
    assert grown[..len + 1] == [len + n] + items;
    FillRun(grown, len, id0, n0);
    Appended(grown[..], len, n0, items, RunDown(id0, n0));
  }

  lemma Appended(s: seq<nat>, len: nat, n: nat, items: seq<nat>, run: seq<nat>)
    requires len + n < |s| && s[..len + 1] == [len + n] + items && s[len + 1..len + n + 1] == run
    ensures IsList(s) && Items(s) == items + run
  {
    assert s[0] == s[..len + 1][0] && s[1..len + 1] == s[..len + 1][1..];
  }

  /** Write a run of pages behind position `at`, the last place first. */
  method FillRun(ids: array<nat>, at: nat, id0: nat, n0: nat)
    requires at + n0 < ids.Length
    modifies ids
    ensures ids[..at + 1] == old(ids[..at + 1]) && ids[at + 1..at + n0 + 1] == RunDown(id0, n0)
    ensures ids[at + n0 + 1..] == old(ids[at + n0 + 1..])
  {
    var n, id := n0, id0;
    while n > 0
      invariant 0 <= n <= n0 && id == id0 + n0 - n
      invariant ids[..at + 1] == old(ids[..at + 1]) && ids[at + n0 + 1..] == old(ids[at + n0 + 1..])
      invariant forall x :: at + n < x <= at + n0 ==> ids[x] == id0 + n0 - (x - at)
    {
      ids[at + n] := id;
      n := n - 1;
      id := id + 1;
    }
  }

  // ---- Loose pages -------------------------------------------------------------------------

  predicate Distinct(s: seq<nat>) { forall i, j :: 0 <= i < j < |s| ==> s[i] != s[j] }

  /** Loose pages are listed in the tail of the free-page buffer, sorted there and merged into its front. */
  method ReturnLoose(head: array<nat>, loose: seq<nat>) returns (grown: array<nat>)
    requires IsList(head[..]) && |loose| <= IdSort.INT_MAX && forall k :: 0 <= k < |loose| ==> loose[k] <= MAX_ID
    modifies head
    ensures (grown == head || fresh(grown)) && IsList(grown[..])
    ensures multiset(Items(grown[..])) == multiset(old(Items(head[..]))) + multiset(loose)
    ensures NonAscending(old(Items(head[..]))) ==> NonAscending(Items(grown[..]))
    ensures Descending(old(Items(head[..]))) && Distinct(loose) && (forall k :: 0 <= k < |loose| ==> loose[k] !in old(Items(head[..])))
            ==> Descending(Items(grown[..]))
  {
    hide Descending, NonAscending, Merged, Distinct;
    ghost var items := Items(head[..]);
    var count := |loose|;
    grown := Need(head, 2 * count + 1);
    var at := Room(grown) - count;
    Park(grown, at, loose);
    ghost var sorted := MergeParked(grown, at, loose);
    MergedContents(items, sorted);
    SortedMerge(items, loose, sorted);
  }

  /** Sort the pages in the tail and merge them into the list in front. */
  method MergeParked(ids: array<nat>, at: nat, ghost loose: seq<nat>) returns (ghost sorted: seq<nat>)
    requires IsList(ids[..]) && at < ids.Length && ids[at] == |loose| && ids[0] + |loose| < at && at + |loose| < ids.Length
    requires ids[at + 1..at + 1 + |loose|] == loose && |loose| <= IdSort.INT_MAX
    requires forall k :: 0 <= k < |loose| ==> loose[k] <= MAX_ID
    modifies ids
    ensures multiset(sorted) == multiset(loose) && NonAscending(sorted)
    ensures IsList(ids[..]) && Items(ids[..]) == Merged(old(Items(ids[..])), sorted)
  {
    hide Merged, NonAscending;
    ghost var count := |loose|;
    SortParked(ids, at);
    sorted := ids[at + 1..at + 1 + count];
    forall i | at < i <= at + count ensures ids[i] <= MAX_ID {
      ParkedBound(loose, sorted, i - at - 1);
      assert ids[i] == sorted[i - at - 1];
    }
    XMerge(ids, ids, at);
  }

  /** List pages in the tail of a buffer, out of reach of the list in front. */
  method Park(ids: array<nat>, at: nat, loose: seq<nat>)
    requires IsList(ids[..]) && ids[0] < at && at + |loose| < ids.Length
    modifies ids
    ensures IsList(ids[..]) && Items(ids[..]) == old(Items(ids[..])) && ids[0] == old(ids[0])
    ensures ids[at] == |loose| && ids[at + 1..at + 1 + |loose|] == loose
  {
    ghost var was := ids[..];
    var k := 0;
    while k < |loose|
      invariant 0 <= k <= |loose| && forall i :: 0 <= i < at ==> ids[i] == was[i]
      invariant forall i :: 0 <= i < k ==> ids[at + 1 + i] == loose[i]
    {
      ids[at + 1 + k] := loose[k];
      k := k + 1;
    }
    ids[at] := |loose|;
    FrontItems(was, ids[..], at);
  }

  lemma FrontItems(s: seq<nat>, t: seq<nat>, at: nat)
    requires IsList(s) && s[0] < at <= |s| == |t| && forall i :: 0 <= i < at ==> t[i] == s[i]
    ensures IsList(t) && Items(t) == Items(s) && t[0] == s[0]
  {
  }

  /** Sort the list in the tail; the one in front stays. */
  method SortParked(ids: array<nat>, at: nat)
    requires IsList(ids[..]) && ids[0] < at < ids.Length && at + ids[at] < ids.Length && ids[at] <= IdSort.INT_MAX
    modifies ids
    ensures IsList(ids[..]) && Items(ids[..]) == old(Items(ids[..])) && ids[0] == old(ids[0]) && ids[at] == old(ids[at])
    ensures multiset(ids[at + 1..at + 1 + ids[at]]) == old(multiset(ids[at + 1..at + 1 + ids[at]]))
    ensures NonAscending(ids[at + 1..at + 1 + ids[at]])
  {
    hide Perm, SameOutside, RangeSorted, NonAscending;
    ghost var before, count := ids[..], ids[at];
    Sort(ids, at);
    FrontKept(before, ids[..], at, count);
    ParkedSorted(before, ids[..], at, count);
    assert ids[..][at + 1..at + 1 + count] == ids[at + 1..at + 1 + count];
    assert before[at + 1..at + 1 + count] == old(ids[at + 1..at + 1 + ids[at]]);
  }

  /** Sorting the tail leaves the list in front of it alone. */
  lemma FrontKept(s: seq<nat>, t: seq<nat>, at: nat, count: nat)
    requires IsList(s) && s[0] < at && at + count < |s| && SameOutside(s, t, at + 1, at + count)
    ensures IsList(t) && Items(t) == Items(s) && t[at] == s[at] && t[0] == s[0]
  {
  }

  lemma ParkedSorted(s: seq<nat>, t: seq<nat>, at: nat, count: nat)
    requires at + count < |s| && Perm(s, t) && SameOutside(s, t, at + 1, at + count) && RangeSorted(t, at + 1, at + count)
    ensures var x, y := s[at + 1..at + 1 + count], t[at + 1..at + 1 + count];
            multiset(x) == multiset(y) && NonAscending(y)
  {
    SegmentContents(s, t, at + 1, at + count);
    var y := t[at + 1..at + 1 + count];
    forall i, j | 0 <= i < j < |y| ensures y[i] >= y[j] { assert t[at + 1 + i] >= t[at + 1 + j]; }
  }

  lemma ParkedBound(loose: seq<nat>, sorted: seq<nat>, i: nat)
    requires multiset(loose) == multiset(sorted) && i < |sorted| && forall k :: 0 <= k < |loose| ==> loose[k] <= MAX_ID
    ensures sorted[i] <= MAX_ID
  {
    assert sorted[i] in multiset(sorted);
    assert sorted[i] in multiset(loose);
  }

  lemma SortedMerge(items: seq<nat>, loose: seq<nat>, sorted: seq<nat>)
    requires multiset(loose) == multiset(sorted) && NonAscending(sorted)
    ensures NonAscending(items) ==> NonAscending(Merged(items, sorted))
    ensures Descending(items) && Distinct(loose) && (forall k :: 0 <= k < |loose| ==> loose[k] !in items)
            ==> Descending(Merged(items, sorted))
  {
    if NonAscending(items) { MergedOrder(items, sorted); }
    if Descending(items) && Distinct(loose) && forall k :: 0 <= k < |loose| ==> loose[k] !in items {
      forall i, j | 0 <= i < j < |sorted| ensures sorted[i] > sorted[j] {
        if sorted[i] == sorted[j] {
          Twice(sorted, i, j);
          DistinctOnce(loose, sorted[i]);
        }
      }
      forall i, j | 0 <= i < |items| && 0 <= j < |sorted| ensures items[i] != sorted[j] {
        assert sorted[j] in multiset(sorted);
        assert sorted[j] in multiset(loose);
      }
      MergedStrict(items, sorted);
    }
  }

  lemma {:induction false} DistinctOnce(s: seq<nat>, x: nat)
    requires Distinct(s)
    ensures multiset(s)[x] <= 1
  {
    if s != [] {
      SplitLast(s);
      DistinctOnce(s[..|s|-1], x);
      if s[|s|-1] == x { assert x !in s[..|s|-1]; }
    }
  }
}
