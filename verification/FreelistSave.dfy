/** Saving the leftover free pages: reserving records for them and filling those records (mdb_freelist_save). */
module FreelistSave {
  import opened IdList
  import opened SplitPoint

  // ---- Reserving ---------------------------------------------------------------------------

  /** What one round of the loop finds: the last record taken pages from, and how many pages there are to save. */
  datatype Round = Round(pglast: nat, pages: nat)

  /** Room for the record at hand: all that is missing, or an even share of it in whole pages. */
  function HeadRoom(missing: int, headId: nat, maxfree: nat): nat {
    if missing > maxfree && headId > 1 then
      var share := missing / headId;
      share + maxfree - share % (maxfree + 1)
    else if missing < 0 then 0 else missing
  }

  lemma HeadRoomCases(missing: int, headId: nat, maxfree: nat)
    ensures var room := HeadRoom(missing, headId, maxfree);
            if missing > maxfree && headId > 1 then room >= maxfree else if missing < 0 then room == 0 else room == missing
  {
    if missing > maxfree && headId > 1 { RoundedUp(missing / headId, maxfree); }
  }

  /** The room is an even share of what is missing, rounded up to the end of a page: with the record's own length in
      front it fills whole pages, and as many records of it as there are ids hold all that is missing. */
  lemma HeadRoomIs(missing: int, headId: nat, maxfree: nat) returns (pages: nat)
    requires missing > maxfree && headId > 1
    ensures var room := HeadRoom(missing, headId, maxfree);
            && room + 1 == pages * (maxfree + 1) && missing / headId <= room <= missing / headId + maxfree
            && headId * (room + 1) > missing
  {
    var share, page := missing / headId, maxfree + 1;
    var room := HeadRoom(missing, headId, maxfree);
    pages := share / page + 1;
    assert share == share / page * page + share % page;
    assert missing == headId * share + missing % headId;
    Larger(headId, share + 1, room + 1);
  }

  lemma Larger(a: nat, b: nat, c: nat)
    requires b <= c
    ensures a * b <= a * c
  {
  }

  lemma RoundedUp(share: nat, maxfree: nat)
    ensures share % (maxfree + 1) <= share
  {
  }

  /** The last `n` rounds find the same. */
  predicate Steady(rounds: seq<Round>, n: nat) {
    0 < n <= |rounds| && forall k :: |rounds| - n <= k < |rounds| ==> rounds[k] == rounds[|rounds|-1]
  }

  /** Rounds that may still be needed when nothing changes any more: one for each lower id, and one to give room back. */
  function Needed(pages: nat, total: nat, headId: nat, more: nat): nat {
    if total == pages || (total > pages && more == 0) then 0 else headId + more
  }

  /** Reserve records under ids from the last consumed one downwards until they have room for all pages; storing a record
      may itself use up pages or consume more records, so that every round starts from what it finds. The rooms are
      listed from the highest id on. */
  method Reserve(rounds: seq<Round>, maxfree: nat) returns (settled: bool, last: nat, pglast: nat, rooms: seq<nat>)
    requires maxfree > 0 && forall k :: 0 <= k < |rounds| ==> rounds[k].pglast >= 1
    ensures settled ==> last < |rounds| && Sum(rooms) >= rounds[last].pages
    ensures |rooms| <= pglast && forall k :: 0 <= k < last && k < |rounds| ==> rounds[k].pglast <= pglast
    ensures pglast == 0 || exists k :: 0 <= k < |rounds| && rounds[k].pglast == pglast
    ensures Steady(rounds, pglast + 3) ==> settled
  {
    hide HeadRoom, Sum;
    var headRoom, total, more := 0, 0, 1;
    SumOne(0);
    var headId := 0;
    pglast, rooms, last := 0, [], 0;
    ghost var same := 0;
    while last < |rounds|
      invariant 0 <= last <= |rounds| && total == Sum(rooms)
      invariant rooms == [] ==> headRoom == 0 && headId == pglast
      invariant rooms != [] ==> headRoom == rooms[|rooms|-1] && |rooms| == pglast - headId + 1
      invariant headId <= pglast && (pglast > 0 ==> headId >= 1) && (rooms != [] ==> pglast > 0)
      invariant forall k :: 0 <= k < last ==> rounds[k].pglast <= pglast
      invariant pglast == 0 || exists k :: 0 <= k < |rounds| && rounds[k].pglast == pglast
      invariant 0 <= more <= 1 && same <= last && (last > 0 ==> same > 0)
      invariant same < last ==> rounds[last-same-1] != rounds[last-1]
      invariant last > 0 ==> same + Needed(rounds[last-1].pages, total, headId, more) <= pglast + 2
      invariant last > 0 && total < rounds[last-1].pages ==> headRoom >= maxfree && headId > 1
    {
      var now := rounds[last];
      if pglast < now.pglast {
        // records up to the new one are deleted, the reserved ones with them
        pglast, headId := now.pglast, now.pglast;
        rooms, total, headRoom := [], 0, 0;
      }
      var pages, another := now.pages, rooms == [];
      if total >= pages {
        if total == pages || more - 1 < 0 {
          settled := true;
          return;
        }
        more := more - 1;
      } else if headRoom >= maxfree && headId > 1 {
        headId := headId - 1;
        headRoom := 0;
        another := true;
      }
      if !another {
        DropLast(rooms);
        rooms := rooms[..|rooms|-1];
      }
      total := total - headRoom;
      headRoom := HeadRoom(pages - total, headId, maxfree);
      HeadRoomCases(pages - total, headId, maxfree);
      SumSnoc(rooms, headRoom);
      rooms := rooms + [headRoom];
      total := total + headRoom;
      same := if last > 0 && rounds[last] == rounds[last-1] then same + 1 else 1;
      last := last + 1;
    }
    settled := false;
  }

  lemma DropLast(rooms: seq<nat>)
    requires rooms != []
    ensures Sum(rooms) == Sum(rooms[..|rooms|-1]) + rooms[|rooms|-1]
  {
    SumSnoc(rooms[..|rooms|-1], rooms[|rooms|-1]);
    assert rooms == rooms[..|rooms|-1] + [rooms[|rooms|-1]];
  }

  // ---- Filling -----------------------------------------------------------------------------

  /** What the records hold together, the first one's pages last. */
  function Together(records: seq<seq<nat>>): seq<nat>
    requires forall k :: 0 <= k < |records| ==> IsList(records[k])
  {
    if records == [] then [] else Together(records[1..]) + Items(records[0])
  }

  lemma {:induction false} TogetherSnoc(records: seq<seq<nat>>, r: seq<nat>)
    requires forall k :: 0 <= k < |records| ==> IsList(records[k])
    requires IsList(r)
    ensures Together(records + [r]) == Items(r) + Together(records)
  {
    var all := records + [r];
    if records == [] {
      assert all[1..] == [];
      assert [] + Items(r) == Items(r) + [];
    } else {
      assert all[1..] == records[1..] + [r];
      TogetherSnoc(records[1..], r);
      assert (Items(r) + Together(records[1..])) + Items(records[0]) == Items(r) + (Together(records[1..]) + Items(records[0]));
    }
  }

  /** Each record gets a stretch of the free list from its low end, with its length in front: the length is put for a
      moment into the place before the stretch. Lists every page in exactly one record and leaves the list as it was. */
  method Fill(mop: array<nat>, rooms: seq<nat>) returns (records: seq<seq<nat>>)
    requires IsList(mop[..]) && Sum(rooms) >= mop[0]
    modifies mop
    ensures mop[..] == old(mop[..]) && |records| <= |rooms|
    ensures forall k :: 0 <= k < |records| ==> IsList(records[k]) && records[k][0] <= rooms[k]
    ensures forall k :: 0 <= k < |records| && Descending(old(Items(mop[..]))) ==> Descending(Items(records[k]))
    ensures Together(records) == old(Items(mop[..]))
  {
    hide Descending, Together, Items, Sum;
    ghost var s, whole := Items(mop[..]), mop[..];
    ListParts(whole);
    TogetherNone();
    records := [];
    var left := mop[0];
    assert rooms[0..] == rooms && s[left..] == [];
    while left > 0
      invariant 0 <= left <= |s| && mop[..] == whole && |records| <= |rooms| && left <= Sum(rooms[|records|..])
      invariant forall k :: 0 <= k < |records| ==> IsList(records[k]) && records[k][0] <= rooms[k]
      invariant forall k :: 0 <= k < |records| && Descending(s) ==> Descending(Items(records[k]))
      invariant Together(records) == s[left..]
      decreases |rooms| - |records|
    {
      RoomLeft(rooms, |records|);
      var room := rooms[|records|];
      var len := if room > left then left else room;
      var at := left - len;
      var save := mop[at];
      mop[at] := len;
      var record := mop[at..left + 1];
      mop[at] := save;
      assert mop[..] == whole;
      Stretch(whole, s, at, len, record);
      TogetherSnoc(records, record);
      assert s[at..left] + s[left..] == s[at..];
      records := records + [record];
      left := at;
    }
    assert s[0..] == s;
  }

  lemma ListParts(a: seq<nat>)
    requires IsList(a)
    ensures a != [] && a[0] < |a| && |Items(a)| == a[0]
  {
  }

  lemma TogetherNone()
    ensures Together([]) == []
  {
  }

  lemma RoomLeft(rooms: seq<nat>, k: nat)
    requires k <= |rooms| && Sum(rooms[k..]) > 0
    ensures k < |rooms| && Sum(rooms[k..]) == rooms[k] + Sum(rooms[k+1..])
  {
    assert k < |rooms| ==> rooms[k..][1..] == rooms[k+1..];
  }

  lemma SliceDescends(s: seq<nat>, from: nat, until: nat)
    requires Descending(s) && from <= until <= |s|
    ensures Descending(s[from..until])
  {
  }

  lemma Stretch(whole: seq<nat>, s: seq<nat>, at: nat, len: nat, record: seq<nat>)
    requires IsList(whole) && s == Items(whole) && at + len <= |s| && record == [len] + whole[at + 1..at + len + 1]
    ensures IsList(record) && record[0] == len && Items(record) == s[at..at + len] && (Descending(s) ==> Descending(Items(record)))
  {
    forall p | 0 <= p < len ensures Items(record)[p] == s[at + p] {
      assert Items(record)[p] == record[p + 1] == whole[at + 1..at + len + 1][p] == whole[at + 1 + p];
    }
    assert Items(record) == s[at..at + len];
    if Descending(s) { SliceDescends(s, at, at + len); }
  }
}
