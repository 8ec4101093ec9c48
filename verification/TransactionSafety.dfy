/** Snapshot isolation, crash atomicity and page conservation over every run of the transaction machine. */
module TransactionSafety {
  import opened Keys
  import opened Transactions

  // ---- The invariant -----------------------------------------------------------------------

  /** Every page up to the last one is used by the snapshot or listed in exactly one freeDB record. */
  ghost predicate SnapOK(k: Snap) {
    && k.image.Keys !! Listed(k.free) && Apart(k.free) && 1 <= k.last
    && k.image.Keys + Listed(k.free) == Pages(NUM_METAS, k.last + 1)
    && forall id :: id in k.free ==> 1 <= id <= k.txnid
  }

  /** The file holds the snapshot's pages as they were committed. */
  ghost predicate Intact(file: map<nat, Content>, k: Snap) {
    forall p :: p in k.image ==> p in file && file[p] == k.image[p]
  }

  ghost predicate OnDisk(file: map<nat, Content>, unsynced: PageSet, k: Snap) {
    Intact(file, k) && k.image.Keys !! unsynced
  }

  /** A page of `k` is still in use in the later snapshot `b`, or listed there under a transaction after `k`. */
  ghost predicate Kept(k: Snap, b: Snap) {
    forall p :: p in k.image ==> p in b.image || ListedAfter(b.free, k.txnid, p)
  }

  ghost predicate ListedAfter(free: map<nat, PageSet>, txnid: nat, p: nat) {
    exists id :: id in free && id > txnid && p in free[id]
  }

  ghost predicate MetasOK(s: State) {
    && |s.metas| == NUM_METAS && Base(s).txnid == s.txnid
    && var other := MetaFor(s, s.txnid + 1);
    if IsMetaWritten(s) then other == s.writer.snap
    else if s.txnid == 0 then other.txnid == 0 else other.txnid == s.txnid - 1
  }

  ghost predicate IsMetaWritten(s: State) { s.writer.Committing? && s.writer.stage == MetaWritten }

  /** A readable snapshot is whole, and no page of it has been taken for anything else. */
  ghost predicate HeldOK(s: State, k: Snap)
    requires |s.metas| == NUM_METAS
  {
    && SnapOK(k) && OnDisk(s.file, s.unsynced, k)
    && (if k.txnid <= s.txnid then Kept(k, Base(s)) else IsMetaWritten(s) && k == s.writer.snap)
  }

  ghost predicate AllHeldOK(s: State)
    requires |s.metas| == NUM_METAS
  {
    forall k :: k in Held(s) ==> HeldOK(s, k)
  }

  /** A registered reader's id bounds every cached oldest id, and a running scan has or will see it. */
  ghost predicate ReaderOK(s: State, r: nat)
    requires r < |s.readers|
  {
    var rd := s.readers[r];
    && (rd.slot.Some? ==> rd.slot.value <= s.txnid)
    && (rd.phase.Loaded? ==> rd.phase.seen <= s.txnid)
    && (rd.phase.Stored? || rd.phase.Checked? || rd.phase.Reading? ==> rd.slot.Some?)
    && (rd.phase.Checked? || rd.phase.Reading? ==>
        && (forall e :: 0 <= e < |s.oldest| ==> s.oldest[e] <= rd.slot.value)
        && (s.writer.Running? && s.writer.w.scan.Scan? ==> r < s.writer.w.scan.left || s.writer.w.scan.least <= rd.slot.value)
        && (s.writer.Running? || s.writer.Committing? ==> s.writer.w.pglast == 0 || s.writer.w.pglast < rd.slot.value))
    && (rd.phase.Reading? ==> rd.slot.value <= rd.phase.snap.txnid)
  }

  ghost predicate ReadersOK(s: State) {
    && (forall r :: 0 <= r < |s.readers| ==> ReaderOK(s, r))
    && (forall e :: 0 <= e < |s.oldest| ==> s.oldest[e] <= s.txnid)
  }

  /** In a write transaction every page is in exactly one place. */
  ghost predicate Conserved(w: Txn) {
    && w.clean !! w.dirty !! w.head !! w.freed !! w.loose !! Listed(w.records) && Apart(w.records)
    && w.clean + w.dirty + w.head + w.freed + w.loose + Listed(w.records) == Pages(NUM_METAS, w.next)
  }

  /** How the transaction stands to the snapshot it started from. */
  ghost predicate TxnOK(b: Snap, w: Txn) {
    && Conserved(w)
    && w.clean <= b.image.Keys <= w.clean + w.freed
    && w.dirty <= w.mem.Keys && w.loose <= w.mem.Keys && w.mem.Keys <= Pages(NUM_METAS, w.next)
    && w.mem.Keys !! b.image.Keys && w.mem.Keys !! Listed(w.records)
    && b.last < w.next
    && (w.pglast == 0 ==> w.head == {})
    && (w.pglast == 0 || w.pglast < b.txnid)
    && (forall id :: id in w.records <==> id in b.free && id > w.pglast)
    && (forall id :: id in w.records ==> w.records[id] == b.free[id])
  }

  ghost predicate ScanOK(s: State, sc: Scan) {
    sc.Scan? ==> sc.left <= |s.readers| && sc.least <= s.txnid
  }

  /** The snapshot being committed. */
  ghost predicate CommitOK(s: State, b: Snap, w: Txn, n: Snap, pending: PageSet, stage: Stage) {
    && n.txnid == b.txnid + 1 && SnapOK(n) && (w.pglast == 0 || w.pglast < b.txnid)
    && (forall k :: k in Held(s) && k.txnid <= s.txnid ==> Kept(k, n) && k.image.Keys !! w.mem.Keys)
    && (forall p :: p in n.image ==>
          if p in b.image then n.image[p] == b.image[p]
          else p in w.mem && n.image[p] == w.mem[p] && (p !in pending ==> p in s.file && s.file[p] == w.mem[p]))
    && (stage != Flushing ==> OnDisk(s.file, s.unsynced, n))
  }

  ghost predicate WriterOK(s: State)
    requires |s.metas| == NUM_METAS
  {
    match s.writer
    case NoWriter => true
    case Running(w) => TxnOK(Base(s), w) && ScanOK(s, w.scan)
    case Committing(w, n, pending, stage) => CommitOK(s, Base(s), w, n, pending, stage)
  }

  ghost predicate Inv(s: State) {
    MetasOK(s) && AllHeldOK(s) && ReadersOK(s) && WriterOK(s)
  }

  // ---- Pages the writer may use -------------------------------------------------------------

  /** A page that is neither in the old snapshot nor in a record left alone is in no readable snapshot. */
  lemma Unheld(s: State, k: Snap, w: Txn, p: nat)
    requires MetasOK(s) && AllHeldOK(s) && k in Held(s) && k.txnid <= s.txnid
    requires TxnOK(Base(s), w) && w.pglast <= k.txnid
    requires p !in Base(s).image && p !in Listed(w.records)
    ensures p !in k.image
  {
    var b := Base(s);
    assert b in Held(s);
    assert HeldOK(s, k);
    assert p in k.image ==> ListedAfter(b.free, k.txnid, p);
  }

  /** The oldest id a writer acted on never passes a readable snapshot. */
  lemma ConsumedBelow(s: State, k: Snap, w: Txn)
    requires MetasOK(s) && ReadersOK(s) && k in Held(s)
    requires s.writer.Running? && w == s.writer.w && TxnOK(Base(s), w)
    ensures w.pglast <= k.txnid
  {
    if k !in s.metas {
      var r := ReaderOf(s, k);
      assert ReaderOK(s, r);
    }
  }

  lemma ReaderOf(s: State, k: Snap) returns (r: nat)
    requires k in Held(s) && k !in s.metas
    ensures r < |s.readers| && s.readers[r].phase == Reading(k)
  {
    var rd :| rd in s.readers && rd.phase.Reading? && rd.phase.snap == k;
    r :| r < |s.readers| && s.readers[r] == rd;
  }

  // ---- Readers -----------------------------------------------------------------------------

  lemma HeldSubset(s: State, t: State)
    requires |s.metas| == NUM_METAS && t.metas == s.metas
    requires forall r :: r in t.readers && r.phase.Reading? ==> r in s.readers || r.phase.snap in s.metas
    ensures Held(t) <= Held(s)
  {
    forall k | k in Held(t) ensures k in Held(s) {
      if k !in t.metas {
        var r := ReaderOf(t, k);
        assert t.readers[r] in t.readers;
      }
    }
  }

  /** Everything but the readers stays the same. */
  lemma OnlyReaders(s: State, t: State)
    requires Inv(s) && t == s.(readers := t.readers) && Held(t) <= Held(s) && |t.readers| >= |s.readers|
    requires forall r :: 0 <= r < |t.readers| ==> ReaderOK(t, r)
    ensures Inv(t)
  {
    hide SnapOK, OnDisk, Kept, TxnOK, ReaderOK, Held;
    assert Base(t) == Base(s);
    forall k | k in Held(t) ensures HeldOK(t, k) {
      assert HeldOK(s, k);
    }
  }

  lemma WriterBounds(s: State)
    requires Inv(s)
    ensures IsMetaWritten(s) ==> s.writer.snap.txnid == s.txnid + 1
    ensures s.writer.Running? || s.writer.Committing? ==> s.writer.w.pglast == 0 || s.writer.w.pglast < s.txnid
    ensures s.writer.Running? && s.writer.w.scan.Scan? ==> s.writer.w.scan.least <= s.txnid
  {
  }

  lemma ReadStep(s: State, step: Step)
    requires Inv(s) && CanRead(s, step)
    ensures Inv(Do(s, step))
  {
    hide SnapOK, OnDisk, Kept, TxnOK, CommitOK, Conserved;
    var t := Do(s, step);
    WriterBounds(s);
    if step.CopyMeta? {
      CopiedOK(s, step.r);
    }
    HeldSubset(s, t) by {
      forall rd | rd in t.readers && rd.phase.Reading? ensures rd in s.readers || rd.phase.snap in s.metas {
        var r :| 0 <= r < |t.readers| && t.readers[r] == rd;
      }
    }
    forall r | 0 <= r < |t.readers| ensures ReaderOK(t, r) {
      if r < |s.readers| { assert ReaderOK(s, r); }
    }
    OnlyReaders(s, t);
  }

  /** A snapshot is copied after the re-check, so it may be newer than the registered id, never older. */
  lemma CopiedOK(s: State, r: nat)
    requires MetasOK(s) && r < |s.readers| && ReaderOK(s, r) && s.readers[r].phase.Checked?
    requires IsMetaWritten(s) ==> s.writer.snap.txnid == s.txnid + 1
    ensures s.readers[r].slot.value <= MetaFor(s, s.readers[r].slot.value).txnid
  {
  }

  // ---- The oldest reader -------------------------------------------------------------------

  /** Everything but the writer and the cached ids stays the same. */
  lemma OnlyWriter(s: State, t: State)
    requires Inv(s) && t == s.(oldest := t.oldest, writer := t.writer)
    requires ReadersOK(t) && WriterOK(t) && !IsMetaWritten(t) && !IsMetaWritten(s)
    ensures Inv(t)
  {
    hide SnapOK, OnDisk, Kept, TxnOK, ReaderOK, CommitOK;
    assert Held(t) == Held(s) && Base(t) == Base(s);
    forall k | k in Held(t) ensures HeldOK(t, k) {
      assert HeldOK(s, k);
    }
  }

  /** The id the scan arrives at is not above any registered reader's, even of those that register meanwhile. */
  lemma ScanStep(s: State, step: Step)
    requires Inv(s) && CanScan(s, step)
    ensures Inv(Do(s, step))
  {
    hide SnapOK, OnDisk, Kept, TxnOK, CommitOK, Conserved, AllHeldOK;
    var t := Do(s, step);
    WriterBounds(s);
    forall r | 0 <= r < |t.readers| ensures ReaderOK(t, r) {
      assert ReaderOK(s, r);
    }
    if step.ScanSlot? { assert ReaderOK(s, s.writer.w.scan.left - 1); }
    SameTxn(Base(s), s.writer.w, t.writer.w.scan);
    OnlyWriter(s, t);
  }

  lemma SameTxn(b: Snap, w: Txn, scan: Scan)
    requires TxnOK(b, w)
    ensures TxnOK(b, w.(scan := scan))
  {
    hide Listed, Apart;
    assert Conserved(w.(scan := scan)) == Conserved(w);
  }

  // ---- Work of the writer ------------------------------------------------------------------

  lemma WorkStep(s: State, step: Step)
    requires Inv(s) && CanWork(s, step)
    ensures Inv(Do(s, step))
  {
    hide SnapOK, OnDisk, Kept, TxnOK, CommitOK, Conserved, AllHeldOK, WorkAfter;
    var t := Do(s, step);
    var w := s.writer.w;
    WriterBounds(s);
    WorkIds(w, step);
    forall r | 0 <= r < |t.readers| ensures ReaderOK(t, r) {
      assert ReaderOK(s, r);
    }
    TxnWork(s, step);
    OnlyWriter(s, t);
  }

  lemma WorkIds(w: Txn, step: Step)
    requires step.Consume? ==> step.id in w.records
    ensures var w' := WorkAfter(w, step);
            w'.pglast == (if step.Consume? then step.id else w.pglast) && w'.scan == w.scan && w'.env == w.env
  {
  }

  lemma TxnWork(s: State, step: Step)
    requires Inv(s) && CanWork(s, step)
    ensures TxnOK(Base(s), WorkAfter(s.writer.w, step))
  {
    hide ReaderOK, Kept, OnDisk, Intact;
    var b, w := Base(s), s.writer.w;
    assert HeldOK(s, b);
    match step
    case Consume(id) => ConsumeOK(b, w, id);
    case AllocHead(p, n) => TakeHeadOK(b, w, Pages(p, p + n));
    case AllocNew(n) => GrowOK(b, w, n);
    case ReturnRun(p, n) => GiveHeadOK(b, w, Pages(p, p + n));
    case _ => MoveOK(b, w, step);
  }

  lemma ConsumeOK(b: Snap, w: Txn, id: nat)
    requires TxnOK(b, w) && id in w.records && id < b.txnid
    requires forall other :: other in w.records ==> id <= other
    ensures TxnOK(b, WorkAfter(w, Consume(id)))
  {
    var w' := WorkAfter(w, Consume(id));
    ListedWithout(w.records, id);
  }

  lemma ListedWithout(free: map<nat, PageSet>, id: nat)
    requires Apart(free) && id in free
    ensures Listed(free) == Listed(free - {id}) + free[id] && Listed(free - {id}) !! free[id] && Apart(free - {id})
  {
    var rest := free - {id};
    forall p | p in Listed(free) ensures p in Listed(rest) + free[id] {
      var i :| i in free && p in free[i];
      if i != id { assert i in rest && p in rest[i]; }
    }
  }

  lemma TakeHeadOK(b: Snap, w: Txn, run: PageSet)
    requires TxnOK(b, w) && run <= w.head
    ensures TxnOK(b, w.(head := w.head - run, dirty := w.dirty + run, mem := w.mem + Fresh(run)))
  {
    hide Listed, Apart;
    var w' := w.(head := w.head - run, dirty := w.dirty + run, mem := w.mem + Fresh(run));
    assert Conserved(w') by { assert w'.head + w'.dirty == w.head + w.dirty; }
  }

  lemma GiveHeadOK(b: Snap, w: Txn, run: PageSet)
    requires TxnOK(b, w) && run <= w.dirty && w.pglast > 0
    ensures TxnOK(b, w.(dirty := w.dirty - run, head := w.head + run, mem := w.mem - run))
  {
    hide Listed, Apart;
  }

  lemma GrowOK(b: Snap, w: Txn, n: nat)
    requires TxnOK(b, w) && 1 <= b.last
    ensures TxnOK(b, WorkAfter(w, AllocNew(n)))
  {
    hide Listed, Apart, Conserved;
    GrowConserved(w, n);
  }

  lemma GrowConserved(w: Txn, n: nat)
    requires Conserved(w) && NUM_METAS <= w.next
    ensures Conserved(WorkAfter(w, AllocNew(n)))
    ensures Pages(w.next, w.next + n) !! w.clean + w.freed + Listed(w.records)
  {
    hide Listed, Apart;
    var run := Pages(w.next, w.next + n);
    assert Pages(NUM_METAS, w.next) + run == Pages(NUM_METAS, w.next + n);
    assert w.clean + w.dirty + w.head + w.freed + w.loose + Listed(w.records) !! run;
  }

  lemma MoveOK(b: Snap, w: Txn, step: Step)
    requires TxnOK(b, w)
    requires match step
             case AllocLoose(p) => p in w.loose
             case FreeClean(ps) => ps <= w.clean
             case FreeDirty(ps) => ps <= w.dirty
             case Loosen(p) => p in w.dirty
             case WritePage(p, _) => p in w.dirty
             case _ => false
    ensures TxnOK(b, WorkAfter(w, step))
  {
    hide Listed, Apart;
  }

  // ---- Commit ------------------------------------------------------------------------------

  lemma ListedUnion(a: map<nat, PageSet>, b: map<nat, PageSet>)
    requires a.Keys !! b.Keys
    ensures Listed(a + b) == Listed(a) + Listed(b)
    ensures Apart(a) && Apart(b) && Listed(a) !! Listed(b) ==> Apart(a + b)
  {
    var c := a + b;
    forall p | p in Listed(a) + Listed(b) ensures p in Listed(c) {
      var id :| (id in a && p in a[id]) || (id in b && p in b[id]);
      assert id in c && p in c[id];
    }
    if Apart(a) && Apart(b) && Listed(a) !! Listed(b) {
      forall i, j | i in c && j in c && i != j ensures c[i] !! c[j] {
        assert i in a ==> c[i] <= Listed(a);
        assert i in b ==> c[i] <= Listed(b);
        assert j in a ==> c[j] <= Listed(a);
        assert j in b ==> c[j] <= Listed(b);
      }
    }
  }

  lemma ListedOne(id: nat, ps: PageSet)
    ensures Listed(map[id := ps]) == ps && Apart(map[id := ps])
  {
    var m := map[id := ps];
    forall p | p in ps ensures p in Listed(m) { assert id in m && p in m[id]; }
  }

  lemma ListedNone()
    ensures Listed(map[]) == {} && Apart(map[])
  {
  }

  lemma ApartRecords(w: Txn)
    requires Conserved(w)
    ensures Apart(w.records)
  {
  }

  predicate HeadsOK(w: Txn, heads: map<nat, PageSet>) {
    Apart(heads) && Listed(heads) == SavedHead(w) && forall id :: id in heads ==> 1 <= id <= w.pglast
  }

  /** The saved snapshot keeps every page: used, freed under its own id, or listed as before. */
  lemma SavedOK(b: Snap, w: Txn, heads: map<nat, PageSet>)
    requires SnapOK(b) && TxnOK(b, w) && HeadsOK(w, heads)
    ensures SnapOK(NewSnap(b, w, heads))
  {
    hide Listed, Apart, Conserved, SavedFreed, SavedHead, Pages, HeadsOK, TxnOK;
    SavedRecords(b, w, heads);
    SavedPages(b, w);
    SavedIds(b, w, heads);
  }

  lemma SavedIds(b: Snap, w: Txn, heads: map<nat, PageSet>)
    requires SnapOK(b) && TxnOK(b, w) && HeadsOK(w, heads)
    ensures var n := NewSnap(b, w, heads);
            n.image.Keys == w.clean + w.dirty && 1 <= n.last && forall id :: id in n.free ==> 1 <= id <= n.txnid
  {
    hide Listed, Apart, Conserved, SavedFreed, SavedHead, Pages;
  }

  lemma SavedRecords(b: Snap, w: Txn, heads: map<nat, PageSet>)
    requires SnapOK(b) && TxnOK(b, w) && HeadsOK(w, heads)
    ensures var n := NewSnap(b, w, heads);
            Apart(n.free) && Listed(n.free) == Listed(w.records) + SavedHead(w) + SavedFreed(w)
  {
    hide Listed, Apart, Conserved;
    var id := b.txnid + 1;
    RecordIds(b);
    ApartRecords(w);
    SavedPages(b, w);
    var own: map<nat, PageSet> := if SavedFreed(w) == {} then map[] else map[id := SavedFreed(w)];
    ListedNone();
    ListedOne(id, SavedFreed(w));
    ListedUnion(w.records, heads);
    ListedUnion(w.records + heads, own);
  }

  lemma SavedPages(b: Snap, w: Txn)
    requires TxnOK(b, w)
    ensures var freed, head := SavedFreed(w), SavedHead(w);
            && w.clean + w.dirty !! Listed(w.records) !! head !! freed
            && w.clean + w.dirty + Listed(w.records) + head + freed == Pages(NUM_METAS, w.next)
  {
    hide Listed, Apart;
  }

  /** An older snapshot's pages survive in the saved one. */
  lemma SavedKeeps(b: Snap, w: Txn, heads: map<nat, PageSet>, k: Snap)
    requires SnapOK(b) && TxnOK(b, w) && HeadsOK(w, heads)
    requires Kept(k, b) && w.pglast <= k.txnid <= b.txnid
    ensures Kept(k, NewSnap(b, w, heads))
  {
    hide SnapOK, Conserved, Listed, Apart;
    var n := NewSnap(b, w, heads);
    assert forall id :: id in b.free ==> id <= b.txnid by { RecordIds(b); }
    forall p | p in k.image ensures p in n.image || ListedAfter(n.free, k.txnid, p) {
      if p in b.image {
        if p !in w.clean {
          assert b.txnid + 1 in n.free && p in n.free[b.txnid + 1];
        }
      } else {
        var id :| id in b.free && id > k.txnid && p in b.free[id];
        assert id in n.free && n.free[id] == b.free[id];
      }
    }
  }

  lemma RecordIds(b: Snap)
    requires SnapOK(b)
    ensures forall id :: id in b.free ==> 1 <= id <= b.txnid
  {
  }

  lemma SaveStep(s: State, heads: map<nat, PageSet>)
    requires Inv(s) && CanCommit(s, Save(heads))
    ensures Inv(Do(s, Save(heads)))
  {
    hide SnapOK, Kept, OnDisk, Conserved, Listed, Apart, Intact;
    var b, w := Base(s), s.writer.w;
    var n := NewSnap(b, w, heads);
    var t := Do(s, Save(heads));
    assert HeldOK(s, b);
    assert HeadsOK(w, heads);
    SavedOK(b, w, heads);
    forall k | k in Held(s) && k.txnid <= s.txnid ensures Kept(k, n) && k.image.Keys !! w.mem.Keys {
      assert HeldOK(s, k);
      ConsumedBelow(s, k, w);
      SavedKeeps(b, w, heads, k);
      forall p | p in w.mem ensures p !in k.image { Unheld(s, k, w, p); }
    }
    assert CommitOK(s, b, w, n, w.dirty, Flushing);
    CommitLater(s, t);
  }

  lemma CommitLater(s: State, t: State)
    requires Inv(s) && s.writer.Running? && t.writer.Committing? && t.writer.w == s.writer.w
    requires t == s.(writer := t.writer) && t.writer.stage == Flushing
    requires CommitOK(s, Base(s), t.writer.w, t.writer.snap, t.writer.pending, Flushing)
    ensures Inv(t)
  {
    hide SnapOK, Kept, OnDisk, TxnOK;
    assert Held(t) == Held(s) && Base(t) == Base(s);
    forall k | k in Held(t) ensures HeldOK(t, k) { assert HeldOK(s, k); }
    forall r | 0 <= r < |t.readers| ensures ReaderOK(t, r) { assert ReaderOK(s, r); }
  }

  /** Writing a page of the new snapshot touches no readable one. */
  lemma FlushStep(s: State, p: nat)
    requires Inv(s) && CanCommit(s, Flush(p))
    ensures Inv(Do(s, Flush(p)))
  {
    hide SnapOK, Kept;
    var t := Do(s, Flush(p));
    assert Held(t) == Held(s) && Base(t) == Base(s);
    forall k | k in Held(t) ensures HeldOK(t, k) {
      assert HeldOK(s, k);
      assert p in s.writer.w.mem.Keys && k.image.Keys !! s.writer.w.mem.Keys;
    }
    forall r | 0 <= r < |t.readers| ensures ReaderOK(t, r) { assert ReaderOK(s, r); }
  }

  lemma SyncStep(s: State)
    requires Inv(s) && CanCommit(s, Sync)
    ensures Inv(Do(s, Sync))
  {
    hide SnapOK, Kept;
    var t := Do(s, Sync);
    assert Held(t) == Held(s) && Base(t) == Base(s);
    assert HeldOK(s, Base(s));
    forall k | k in Held(t) ensures HeldOK(t, k) { assert HeldOK(s, k); }
    forall r | 0 <= r < |t.readers| ensures ReaderOK(t, r) { assert ReaderOK(s, r); }
  }

  lemma WriteMetaStep(s: State)
    requires Inv(s) && CanCommit(s, WriteMeta)
    ensures Inv(Do(s, WriteMeta))
  {
    hide SnapOK, Kept, OnDisk;
    var t := Do(s, WriteMeta);
    var n := s.writer.snap;
    assert Base(t) == Base(s);
    forall k | k in Held(t) ensures k == n || k in Held(s) {
      if k !in t.metas { var r := ReaderOf(t, k); assert s.readers[r] in s.readers; }
    }
    forall k | k in Held(t) ensures HeldOK(t, k) {
      if k != n { assert HeldOK(s, k); }
    }
    forall r | 0 <= r < |t.readers| ensures ReaderOK(t, r) { assert ReaderOK(s, r); }
  }

  lemma PublishStep(s: State)
    requires Inv(s) && CanCommit(s, Publish)
    ensures Inv(Do(s, Publish))
  {
    hide SnapOK, OnDisk;
    var t := Do(s, Publish);
    assert Held(t) == Held(s) && Base(t) == s.writer.snap;
    forall k | k in Held(t) ensures HeldOK(t, k) { assert HeldOK(s, k); }
    forall r | 0 <= r < |t.readers| ensures ReaderOK(t, r) { assert ReaderOK(s, r); }
  }

  lemma AbortStep(s: State)
    requires Inv(s) && CanCommit(s, Abort)
    ensures Inv(Do(s, Abort))
  {
    hide SnapOK, OnDisk, Kept, CommitOK, TxnOK;
    var t := Do(s, Abort);
    assert Held(t) == Held(s) && Base(t) == Base(s);
    forall k | k in Held(t) ensures HeldOK(t, k) { assert HeldOK(s, k); }
    forall r | 0 <= r < |t.readers| ensures ReaderOK(t, r) { assert ReaderOK(s, r); }
  }

  lemma BeginStep(s: State, env: nat)
    requires Inv(s) && CanCommit(s, Begin(env))
    ensures Inv(Do(s, Begin(env)))
  {
    hide OnDisk, Kept, Listed, Apart, SnapOK, TxnOK;
    var t := Do(s, Begin(env));
    assert Held(t) == Held(s) && Base(t) == Base(s);
    assert HeldOK(s, Base(s));
    StartOK(Base(s), env);
    forall k | k in Held(t) ensures HeldOK(t, k) { assert HeldOK(s, k); }
    forall r | 0 <= r < |t.readers| ensures ReaderOK(t, r) { assert ReaderOK(s, r); }
  }

  lemma StartOK(b: Snap, env: nat)
    requires SnapOK(b)
    ensures TxnOK(b, StartTxn(b, env))
  {
    hide Listed, Apart;
  }

  /** A crash leaves what the meta pages lead to. */
  lemma CrashStep(s: State, after: map<nat, Content>, processes: nat)
    requires Inv(s) && CanCrash(s, after)
    ensures Inv(CrashAfter(s, after, processes))
    ensures PickMeta(s.metas) == LastCommitted(s)
  {
    hide SnapOK;
    var t := CrashAfter(s, after, processes);
    forall k | k in Held(t) ensures k in Held(s) { assert k in t.metas; }
    assert HeldOK(s, s.metas[0]) && HeldOK(s, s.metas[1]) by { assert s.metas[0] in Held(s) && s.metas[1] in Held(s); }
    forall k | k in Held(t) ensures HeldOK(t, k) { assert HeldOK(s, k); }
  }

  /** The newest snapshot whose meta page is written. */
  function LastCommitted(s: State): Snap
    requires |s.metas| == NUM_METAS
  {
    if s.writer.Committing? && s.writer.stage == MetaWritten then s.writer.snap else Base(s)
  }

  // ---- Every step, every run ---------------------------------------------------------------

  lemma InitInv(s: State)
    requires Init(s)
    ensures Inv(s)
  {
    forall k | k in Held(s) ensures HeldOK(s, k) { assert k in s.metas; }
  }

  lemma StepInv(s: State, step: Step)
    requires Inv(s) && Can(s, step)
    ensures Inv(Do(s, step))
  {
    hide Inv;
    if CanRead(s, step) {
      ReadStep(s, step);
    } else if CanScan(s, step) {
      ScanStep(s, step);
    } else if CanWork(s, step) {
      WorkStep(s, step);
    } else {
      match step
      case Begin(env) => BeginStep(s, env);
      case Save(heads) => SaveStep(s, heads);
      case Flush(p) => FlushStep(s, p);
      case Sync => SyncStep(s);
      case WriteMeta => WriteMetaStep(s);
      case Publish => PublishStep(s);
      case Abort => AbortStep(s);
      case Crash(after, processes) => CrashStep(s, after, processes);
    }
  }

  lemma {:induction false} RunInv(states: seq<State>, steps: seq<Step>, i: nat)
    requires Run(states, steps) && i < |states|
    ensures Inv(states[i])
  {
    hide Inv, Init, Can, Do;
    if i == 0 {
      InitInv(states[0]);
    } else {
      RunInv(states, steps, i - 1);
      StepInv(states[i-1], steps[i-1]);
    }
  }

  /** In every run, an active reader finds its snapshot as it was committed, and the writer holds no page of it. */
  lemma SnapshotIsolation(states: seq<State>, steps: seq<Step>, i: nat, r: nat)
    requires Run(states, steps) && i < |states|
    requires r < |states[i].readers| && states[i].readers[r].phase.Reading?
    ensures var s := states[i]; var k := s.readers[r].phase.snap;
            && Intact(s.file, k) && s.readers[r].slot.Some? && s.readers[r].slot.value <= k.txnid
            && (s.writer.Running? ==> var w := s.writer.w;
                k.image.Keys !! w.dirty + w.head + w.loose + w.mem.Keys)
            && (s.writer.Committing? && s.writer.stage == Flushing ==> k.image.Keys !! s.writer.w.mem.Keys)
  {
    hide SnapOK, Kept;
    RunInv(states, steps, i);
    var s := states[i];
    var k := s.readers[r].phase.snap;
    assert s.readers[r] in s.readers && k in Held(s);
    assert HeldOK(s, k) && ReaderOK(s, r);
    if s.writer.Running? {
      NoneHeld(s, k);
    }
  }

  lemma NoneHeld(s: State, k: Snap)
    requires Inv(s) && s.writer.Running? && k in Held(s)
    ensures var w := s.writer.w; k.image.Keys !! w.dirty + w.head + w.loose + w.mem.Keys
  {
    hide SnapOK, OnDisk, Kept, ReaderOK;
    var w := s.writer.w;
    ConsumedBelow(s, k, w);
    assert HeldOK(s, k);
    AllocatedPages(Base(s), w);
    forall p | p in w.dirty + w.head + w.loose + w.mem.Keys ensures p !in k.image {
      Unheld(s, k, w, p);
    }
  }

  lemma AllocatedPages(b: Snap, w: Txn)
    requires TxnOK(b, w)
    ensures w.dirty + w.head + w.loose + w.mem.Keys !! b.image.Keys + Listed(w.records)
  {
    hide Listed, Apart;
  }

  /** The cached oldest id of no process is above an active reader's, and the records the writer takes pages
      from, under whose ids it saves what is left over, are older than every active reader. */
  lemma OldestNeverAhead(states: seq<State>, steps: seq<Step>, i: nat, r: nat)
    requires Run(states, steps) && i < |states|
    requires r < |states[i].readers| && states[i].readers[r].phase.Reading?
    ensures var s := states[i]; var rd := s.readers[r];
            && rd.slot.Some? && (forall e :: 0 <= e < |s.oldest| ==> s.oldest[e] <= rd.slot.value)
            && (forall heads :: CanCommit(s, Save(heads)) ==> forall id :: id in heads ==> 1 <= id < rd.slot.value)
            && (forall id: nat :: CanWork(s, Consume(id)) ==> id < rd.slot.value)
  {
    RunInv(states, steps, i);
    assert ReaderOK(states[i], r);
  }

  lemma MetaHeld(s: State, j: nat)
    requires |s.metas| == NUM_METAS && j < NUM_METAS
    ensures s.metas[j] in Held(s)
  {
  }

  /** At any moment a crash leaves the last snapshot whose meta page was written: that of the transaction
      in progress if its meta page is out, else the one before it, whole and unaltered on disk. */
  lemma CrashAtomicity(states: seq<State>, steps: seq<Step>, i: nat, after: map<nat, Content>, processes: nat)
    requires Run(states, steps) && i < |states| && CanCrash(states[i], after)
    ensures var s := states[i]; var k := PickMeta(CrashAfter(s, after, processes).metas);
            && k == LastCommitted(s) && SnapOK(k)
            && (forall j :: 0 <= j < NUM_METAS ==> Intact(after, s.metas[j]))
            && (k.txnid == s.txnid || (IsMetaWritten(s) && k.txnid == s.txnid + 1))
  {
    hide SnapOK, Kept, Held, WriterOK, ReadersOK;
    RunInv(states, steps, i);
    var s := states[i];
    CrashStep(s, after, processes);
    var t := CrashAfter(s, after, processes);
    forall j | 0 <= j < NUM_METAS ensures HeldOK(t, t.metas[j]) { MetaHeld(t, j); }
    WriterBounds(s);
  }

  /** Every page is in one place at every step, and reachable or listed exactly once in what a commit leaves. */
  lemma PageConservation(states: seq<State>, steps: seq<Step>, i: nat)
    requires Run(states, steps) && i < |states|
    ensures states[i].writer.Running? ==> Conserved(states[i].writer.w)
    ensures states[i].writer.Committing? ==> SnapOK(states[i].writer.snap)
    ensures forall k :: k in Held(states[i]) ==> SnapOK(k)
  {
    hide SnapOK, Kept, OnDisk, Conserved;
    RunInv(states, steps, i);
    forall k | k in Held(states[i]) ensures SnapOK(k) { assert HeldOK(states[i], k); }
  }
}
