/** What mdb_freelist_save leaves is what the transaction machine takes as saved: the records written list each
    leftover page exactly once, under ids that no reader can still need. */
module FreelistRecords {
  import opened Transactions
  import opened TransactionSafety
  import IdList
  import FreelistSave
  import SplitPoint

  function PagesOf(s: seq<nat>): (ps: PageSet)
    ensures forall p :: p in ps <==> p in s
  {
    set p | p in s
  }

  /** Records as they are found in the freeDB, the first one under the lowest id. */
  function RecordMap(headId: nat, records: seq<seq<nat>>): (m: map<nat, PageSet>)
    requires forall k :: 0 <= k < |records| ==> IdList.IsList(records[k])
    ensures forall id :: id in m <==> headId <= id < headId + |records|
    ensures forall id :: id in m ==> m[id] == PagesOf(IdList.Items(records[id - headId]))
  {
    var n := |records| - 1;
    if records == [] then map[] else RecordMap(headId, records[..n])[headId + n := PagesOf(IdList.Items(records[n]))]
  }

  // ---- Each page in one record -----------------------------------------------------------------

  lemma NotInBoth(a: seq<nat>, b: seq<nat>, i: nat, j: nat)
    requires IdList.Distinct(a + b) && i < |a| && j < |b|
    ensures a[i] != b[j]
  {
    assert (a + b)[i] == a[i] && (a + b)[|a| + j] == b[j];
  }

  /** The pages of the first record are not among those of the others. */
  lemma FirstApart(a: seq<nat>, b: seq<nat>, p: nat)
    requires IdList.Distinct(a + b) && p in b
    ensures p !in a
  {
    if i :| 0 <= i < |a| && a[i] == p {
      var j :| 0 <= j < |b| && b[j] == p;
      NotInBoth(a, b, i, j);
    }
  }

  lemma DistinctParts(a: seq<nat>, b: seq<nat>)
    requires IdList.Distinct(a + b)
    ensures IdList.Distinct(a) && IdList.Distinct(b)
  {
    forall i, j | 0 <= i < j < |a| ensures a[i] != a[j] {
      assert (a + b)[i] == a[i] && (a + b)[j] == a[j];
    }
    forall i, j | 0 <= i < j < |b| ensures b[i] != b[j] {
      assert (a + b)[|a| + i] == b[i] && (a + b)[|a| + j] == b[j];
    }
  }

  lemma {:induction false} MemberOfTogether(records: seq<seq<nat>>, p: nat)
    requires forall k :: 0 <= k < |records| ==> IdList.IsList(records[k])
    ensures p in FreelistSave.Together(records)
            <==> exists k :: 0 <= k < |records| && p in IdList.Items(records[k])
    decreases records
  {
    hide IdList.IsList, IdList.Items;
    if records != [] {
      MemberOfTogether(records[1..], p);
      if k :| 0 <= k < |records| && p in IdList.Items(records[k]) {
        assert k > 0 ==> records[1..][k-1] == records[k];
      }
      if k :| 0 <= k < |records[1..]| && p in IdList.Items(records[1..][k]) {
        assert records[k+1] == records[1..][k];
      }
    }
  }

  lemma {:induction false} RecordsApart(records: seq<seq<nat>>, i: nat, j: nat)
    requires forall k :: 0 <= k < |records| ==> IdList.IsList(records[k])
    requires IdList.Distinct(FreelistSave.Together(records)) && i < j < |records|
    ensures PagesOf(IdList.Items(records[i])) !! PagesOf(IdList.Items(records[j]))
    decreases records
  {
    hide IdList.IsList, IdList.Items, IdList.Distinct;
    var rest := records[1..];
    var later := FreelistSave.Together(rest);
    DistinctParts(later, IdList.Items(records[0]));
    if i > 0 {
      RecordsApart(rest, i - 1, j - 1);
    } else {
      forall p | p in IdList.Items(records[j]) ensures p !in IdList.Items(records[0]) {
        MemberOfTogether(rest, p);
        assert rest[j-1] == records[j];
        assert p in later;
        if p in IdList.Items(records[0]) { FirstApart(later, IdList.Items(records[0]), p); }
      }
    }
  }

  /** Records that together hold a list without repetition partition its pages. */
  lemma RecordsPartition(headId: nat, records: seq<seq<nat>>, s: seq<nat>)
    requires forall k :: 0 <= k < |records| ==> IdList.IsList(records[k])
    requires FreelistSave.Together(records) == s && IdList.Distinct(s)
    ensures var m := RecordMap(headId, records); Apart(m) && Listed(m) == PagesOf(s)
  {
    hide IdList.IsList, IdList.Items, IdList.Distinct, FreelistSave.Together;
    var m := RecordMap(headId, records);
    forall a, b | a in m && b in m && a != b ensures m[a] !! m[b] {
      if a < b { RecordsApart(records, a - headId, b - headId); } else { RecordsApart(records, b - headId, a - headId); }
    }
    forall p ensures p in Listed(m) <==> p in s {
      MemberOfTogether(records, p);
      if k :| 0 <= k < |records| && p in IdList.Items(records[k]) {
        assert headId + k in m && p in m[headId + k];
      }
    }
  }

  // ---- The whole save ----------------------------------------------------------------------------

  function Backwards(rooms: seq<nat>): (r: seq<nat>)
    ensures |r| == |rooms|
  {
    if rooms == [] then [] else Backwards(rooms[1..]) + [rooms[0]]
  }

  lemma {:induction false} BackwardsSum(rooms: seq<nat>)
    ensures SplitPoint.Sum(Backwards(rooms)) == SplitPoint.Sum(rooms)
  {
    if rooms != [] {
      BackwardsSum(rooms[1..]);
      SplitPoint.SumSnoc(Backwards(rooms[1..]), rooms[0]);
    }
  }

  lemma DescendingDistinct(s: seq<nat>)
    requires IdList.Descending(s)
    ensures IdList.Distinct(s)
  {
  }

  lemma SamePages(s: seq<nat>, a: seq<nat>, b: seq<nat>)
    requires multiset(s) == multiset(a) + multiset(b)
    ensures PagesOf(s) == PagesOf(a) + PagesOf(b) && |s| == |a| + |b|
  {
    forall p ensures p in s <==> p in a || p in b {
      assert p in multiset(s) <==> p in s;
      assert p in multiset(a) <==> p in a;
      assert p in multiset(b) <==> p in b;
    }
    assert |multiset(s)| == |s| && |multiset(a)| == |a| && |multiset(b)| == |b|;
  }

  lemma PoolsApart(w: Txn, head: seq<nat>, loose: seq<nat>)
    requires Conserved(w) && PagesOf(head) == w.head && PagesOf(loose) == w.loose
    ensures forall k :: 0 <= k < |loose| ==> loose[k] !in head
  {
    hide Listed, Pages, Apart;
    assert PagesOf(head) !! PagesOf(loose);
  }

  /** mdb_freelist_save for the reusable and the loose pages of `w`: records are reserved round by round, loose pages
      are returned to the list, and the records are filled. `rounds` is what each round found, the last one the state
      that is saved. */
  method SaveFreelist(rounds: seq<FreelistSave.Round>, maxfree: nat, head: array<nat>, loose: seq<nat>, ghost w: Txn)
    returns (settled: bool, ghost heads: map<nat, PageSet>)
    requires maxfree > 0 && rounds != [] && Conserved(w) && w.pglast > 0
    requires forall k :: 0 <= k < |rounds| ==> 1 <= rounds[k].pglast <= w.pglast
    requires IdList.IsList(head[..]) && IdList.Descending(IdList.Items(head[..])) && IdList.Distinct(loose)
    requires |loose| <= IdList.IdSort.INT_MAX && forall k :: 0 <= k < |loose| ==> loose[k] <= IdList.MAX_ID
    requires PagesOf(IdList.Items(head[..])) == w.head && PagesOf(loose) == w.loose
    requires rounds[|rounds|-1].pages == head[0] + |loose|
    modifies head
    ensures settled ==> HeadsOK(w, heads)
  {
    hide IdList.IsList, IdList.Items, IdList.Descending, IdList.Distinct, Conserved, SplitPoint.Sum, Backwards;
    ghost var items := IdList.Items(head[..]);
    heads := map[];
    var last, pglast, rooms;
    settled, last, pglast, rooms := FreelistSave.Reserve(rounds, maxfree);
    settled := settled && last == |rounds| - 1;
    if settled {
      PoolsApart(w, items, loose);
      ItemsLength(head[..]);
      var grown := IdList.ReturnLoose(head, loose);
      ghost var s := IdList.Items(grown[..]);
      SamePages(s, items, loose);
      DescendingDistinct(s);
      ItemsLength(grown[..]);
      BackwardsSum(rooms);
      var records := FreelistSave.Fill(grown, Backwards(rooms));
      ghost var headId := pglast + 1 - |rooms|;
      RecordsPartition(headId, records, s);
      heads := RecordMap(headId, records);
    }
  }

  lemma ItemsLength(a: seq<nat>)
    requires IdList.IsList(a)
    ensures a != [] && |IdList.Items(a)| == a[0]
  {
  }

  // ---- The step of the machine -------------------------------------------------------------------

  /** With records like these the machine's save step is enabled, and it leaves a snapshot in which every page is
      used or listed exactly once. */
  lemma SavedIsStep(s: State, heads: map<nat, PageSet>)
    requires Inv(s) && IsRunning(s) && HeadsOK(s.writer.w, heads)
    ensures CanCommit(s, Save(heads)) && Inv(Do(s, Save(heads)))
    ensures SnapOK(NewSnap(Base(s), s.writer.w, heads))
  {
    hide SnapOK, Conserved, Listed, Apart, Pages;
    assert HeldOK(s, Base(s));
    SaveStep(s, heads);
    SavedOK(Base(s), s.writer.w, heads);
  }

  /** A transaction that consumed no record has nothing to write back. */
  lemma NothingConsumed(w: Txn)
    requires w.pglast == 0
    ensures HeadsOK(w, map[])
  {
    ListedNone();
  }
}
