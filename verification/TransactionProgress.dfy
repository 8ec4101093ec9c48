/** What the machine of transactions achieves: the scan for the oldest reader finds exactly that, the records below it can
    all be consumed, a commit goes through and publishes what was written, and an undisturbed reader gets to read it. */
module TransactionProgress {
  import opened Keys
  import opened Transactions
  import opened TransactionSafety

  // ---- The scan for the oldest reader ----------------------------------------------------------

  predicate Scanning(s: State) { s.writer.Running? && s.writer.w.scan.Scan? }

  /** The slot a scan step looks at, counted from the end of the table. */
  function Place(s: State): nat
    requires Scanning(s) && s.writer.w.scan.left > 0
  {
    s.writer.w.scan.left - 1
  }

  /** The id in that slot. */
  function Met(s: State): Option<nat> {
    if Scanning(s) && 0 < s.writer.w.scan.left <= |s.readers| then s.readers[Place(s)].slot else None
  }

  /** Looked at slot `r`. */
  predicate LookedAt(s: State, step: Step, r: nat) {
    step == ScanSlot && Scanning(s) && s.writer.w.scan.left > 0 && Place(s) == r
  }

  ghost predicate Visited(states: seq<State>, steps: seq<Step>, i: nat, k: nat, r: nat)
    requires i < k <= |steps| && k <= |states|
  {
    exists x :: i < x < k && LookedAt(states[x], steps[x], r)
  }

  /** A scan begins at step `i` and has not begun again before `k`. */
  ghost predicate OneScan(states: seq<State>, steps: seq<Step>, i: nat, k: nat) {
    Run(states, steps) && i < k < |states| && steps[i] == ScanStart && forall x :: i < x < k ==> steps[x] != ScanStart
  }

  /** The least of the last committed id and the ids met so far. */
  ghost predicate LeastMet(states: seq<State>, steps: seq<Step>, i: nat, k: nat, id: nat)
    requires i < k <= |steps| && k <= |states|
  {
    && id <= states[i].txnid
    && (forall x :: i < x < k && steps[x] == ScanSlot && Met(states[x]).Some? ==> id <= Met(states[x]).value)
    && (id == states[i].txnid || exists x :: i < x < k && steps[x] == ScanSlot && Met(states[x]) == Some(id))
  }

  lemma ScanningStays(s: State, step: Step)
    requires Can(s, step) && step != ScanStart && Scanning(Do(s, step))
    ensures Scanning(s) && s.writer.w.env == Do(s, step).writer.w.env
    ensures var sc, sc' := s.writer.w.scan, Do(s, step).writer.w.scan;
            if step == ScanSlot then
              && 0 < sc.left <= |s.readers| && sc'.left == sc.left - 1
              && sc'.least == (if Met(s).Some? && Met(s).value < sc.least then Met(s).value else sc.least)
            else sc' == sc
  {
    hide CanRead, CanScan, CanWork, CanCommit, CanCrash, Do, Met;
    if CanRead(s, step) {
      ReaderLeavesScan(s, step);
    } else if CanScan(s, step) {
      ScanStepDoes(s, step);
    } else if CanWork(s, step) {
      WorkNoScan(s, step);
    } else {
      OthersNoScan(s, step);
    }
  }

  lemma ReaderLeavesScan(s: State, step: Step)
    requires CanRead(s, step)
    ensures Can(s, step) && Do(s, step).writer == s.writer && step != ScanSlot
  {
  }

  lemma ScanStepDoes(s: State, step: Step)
    requires CanScan(s, step) && step != ScanStart
    ensures Can(s, step) && Scanning(s)
    ensures Scanning(Do(s, step)) ==>
              var sc, sc' := s.writer.w.scan, Do(s, step).writer.w.scan;
              && step == ScanSlot && 0 < sc.left <= |s.readers| && sc'.left == sc.left - 1
              && sc'.least == (if Met(s).Some? && Met(s).value < sc.least then Met(s).value else sc.least)
              && Do(s, step).writer.w.env == s.writer.w.env
  {
  }

  lemma WorkNoScan(s: State, step: Step)
    requires CanWork(s, step)
    ensures Can(s, step) && !Scanning(Do(s, step))
  {
  }

  lemma OthersNoScan(s: State, step: Step)
    requires Can(s, step) && !CanRead(s, step) && !CanScan(s, step) && !CanWork(s, step)
    ensures !Scanning(Do(s, step))
  {
  }

  lemma ScanBegins(s: State)
    requires Can(s, ScanStart)
    ensures var t := Do(s, ScanStart);
            Scanning(t) && t.writer.w.scan == Scan(|s.readers|, s.txnid) && t.readers == s.readers && t.txnid == s.txnid
  {
  }

  /** As long as the scan goes on it holds the least id met, and every slot behind its place has been looked at. */
  lemma {:induction false} ScanHolds(states: seq<State>, steps: seq<Step>, i: nat, k: nat)
    requires OneScan(states, steps, i, k) && Scanning(states[k])
    ensures LeastMet(states, steps, i, k, states[k].writer.w.scan.least)
    ensures forall r :: states[k].writer.w.scan.left <= r < |states[i].readers| ==> Visited(states, steps, i, k, r)
    decreases k
  {
    hide Init, Can, Do, Met, LookedAt, Place;
    if k == i + 1 {
      ScanBegins(states[i]);
    } else {
      var s, step := states[k-1], steps[k-1];
      ScanningStays(s, step);
      ScanHolds(states, steps, i, k - 1);
      LeastGrows(states, steps, i, k);
      forall r | states[k].writer.w.scan.left <= r < |states[i].readers| ensures Visited(states, steps, i, k, r) {
        if r < s.writer.w.scan.left {
          LooksAt(s, step);
          assert LookedAt(states[k-1], steps[k-1], r);
        } else {
          assert Visited(states, steps, i, k - 1, r);
          var x :| i < x < k - 1 && LookedAt(states[x], steps[x], r);
          assert i < x < k;
        }
      }
    }
  }

  lemma LooksAt(s: State, step: Step)
    requires Can(s, step) && step == ScanSlot
    ensures Scanning(s) && s.writer.w.scan.left > 0 && LookedAt(s, step, s.writer.w.scan.left - 1)
  {
  }

  lemma LeastGrows(states: seq<State>, steps: seq<Step>, i: nat, k: nat)
    requires OneScan(states, steps, i, k) && i < k - 1 && Scanning(states[k]) && Scanning(states[k-1])
    requires LeastMet(states, steps, i, k - 1, states[k-1].writer.w.scan.least)
    ensures LeastMet(states, steps, i, k, states[k].writer.w.scan.least)
  {
    hide Init, Can, Do, Met;
    var s, step := states[k-1], steps[k-1];
    ScanningStays(s, step);
    var old_, now := s.writer.w.scan.least, states[k].writer.w.scan.least;
    if now == old_ {
      if old_ != states[i].txnid {
        var x :| i < x < k - 1 && steps[x] == ScanSlot && Met(states[x]) == Some(old_);
        assert i < x < k;
      }
    } else {
      assert steps[k-1] == ScanSlot && Met(states[k-1]) == Some(now);
    }
  }

  lemma ScanEnds(s: State)
    requires Can(s, ScanEnd)
    ensures Scanning(s) && s.writer.w.scan.left == 0 && s.writer.w.env < |s.oldest|
    ensures var t := Do(s, ScanEnd);
            && t.oldest == s.oldest[s.writer.w.env := s.writer.w.scan.least] && IsRunning(t)
            && t.writer.w == s.writer.w.(scan := NoScan) && t.readers == s.readers && t.txnid == s.txnid
  {
  }

  /** However readers come and go meanwhile: the id a scan leaves behind is the least of the last committed id and the ids
      met in the slots, and every slot of the table the scan began with has been looked at. */
  lemma ScanFinds(states: seq<State>, steps: seq<Step>, i: nat, j: nat)
    requires OneScan(states, steps, i, j) && j < |steps| && steps[j] == ScanEnd
    ensures states[j].writer.Running? && states[j].writer.w.env < |states[j+1].oldest|
    ensures LeastMet(states, steps, i, j, states[j+1].oldest[states[j].writer.w.env])
    ensures forall r :: 0 <= r < |states[i].readers| ==> Visited(states, steps, i, j, r)
  {
    hide Init, Can, Do, LookedAt, LeastMet, Visited;
    ScanEnds(states[j]);
    ScanHolds(states, steps, i, j);
  }

  lemma {:induction false} QuietScan(states: seq<State>, steps: seq<Step>, i: nat, k: nat)
    requires OneScan(states, steps, i, k) && forall x :: i < x < k ==> steps[x] == ScanSlot
    ensures states[k].readers == states[i].readers && states[k].txnid == states[i].txnid
    ensures Scanning(states[k]) && states[i].writer.Running? && states[k].writer.w.env == states[i].writer.w.env
    ensures states[k].writer.w == states[i].writer.w.(scan := states[k].writer.w.scan)
    decreases k
  {
    hide Init;
    if k > i + 1 { QuietScan(states, steps, i, k - 1); }
  }

  /** With no other step in between, the scan leaves the least of the last committed id and all registered ids, and the
      last committed id itself when nobody is registered. */
  lemma ScanExact(states: seq<State>, steps: seq<Step>, i: nat, j: nat)
    requires OneScan(states, steps, i, j) && j < |steps| && steps[j] == ScanEnd
    requires forall x :: i < x < j ==> steps[x] == ScanSlot
    ensures states[i].writer.Running? && states[i].writer.w.env < |states[j+1].oldest|
    ensures var found, s := states[j+1].oldest[states[i].writer.w.env], states[i];
            && found <= s.txnid
            && (forall r :: 0 <= r < |s.readers| && s.readers[r].slot.Some? ==> found <= s.readers[r].slot.value)
            && (found == s.txnid || exists r :: 0 <= r < |s.readers| && s.readers[r].slot == Some(found))
  {
    hide Init, Can, Do;
    QuietScan(states, steps, i, j);
    ScanFinds(states, steps, i, j);
    var found, s := states[j+1].oldest[states[i].writer.w.env], states[i];
    forall r | 0 <= r < |s.readers| && s.readers[r].slot.Some? ensures found <= s.readers[r].slot.value {
      assert Visited(states, steps, i, j, r);
      var x :| i < x < j && LookedAt(states[x], steps[x], r);
      QuietAt(states, steps, i, x);
      assert Met(states[x]) == s.readers[r].slot;
    }
    if found != s.txnid {
      var x :| i < x < j && steps[x] == ScanSlot && Met(states[x]) == Some(found);
      QuietAt(states, steps, i, x);
      assert s.readers[Place(states[x])].slot == Some(found);
    }
  }

  lemma QuietAt(states: seq<State>, steps: seq<Step>, i: nat, x: nat)
    requires i < x < |steps| && OneScan(states, steps, i, x) && forall y :: i < y < x ==> steps[y] == ScanSlot
    ensures states[x].readers == states[i].readers
  {
    QuietScan(states, steps, i, x);
  }

  // ---- Consuming records -----------------------------------------------------------------------

  predicate Below(w: Txn, oldest: nat) { forall id :: id in w.records ==> id >= oldest }

  lemma LeastRecord(w: Txn, bound: nat) returns (id: nat)
    requires !Below(w, bound)
    ensures id in w.records && id < bound && forall other :: other in w.records ==> id <= other
  {
    var first :| first in w.records && first < bound;
    id := LeastOf(w.records.Keys, first);
  }

  lemma {:induction false} LeastOf(ids: set<nat>, x: nat) returns (least: nat)
    requires x in ids
    ensures least in ids && least <= x && forall other :: other in ids ==> least <= other
    decreases x
  {
    if y :| y in ids && y < x {
      least := LeastOf(ids, y);
    } else {
      least := x;
    }
  }

  lemma Fewer(records: map<nat, PageSet>, id: nat)
    requires id in records
    ensures |records - {id}| < |records|
  {
    assert (records - {id}).Keys == records.Keys - {id};
    assert |(records - {id}).Keys| == |records - {id}|;
  }

  /** Every record below `bound` is gone and its pages are in the head list; the others are still there. */
  ghost predicate Consumed(w: Txn, w': Txn, bound: nat) {
    && (forall id :: id in w'.records <==> id in w.records && id >= bound) && w.head <= w'.head
    && forall id :: id in w.records && id < bound ==> w.records[id] <= w'.head
  }

  lemma ConsumesOne(s: State, id: nat)
    requires IsRunning(s) && s.writer.w.env < |s.oldest| && id in s.writer.w.records && id < s.oldest[s.writer.w.env]
    requires forall other :: other in s.writer.w.records ==> id <= other
    ensures Can(s, Consume(id))
    ensures var t, w := Do(s, Consume(id)), s.writer.w;
            && IsRunning(t) && t.oldest == s.oldest && t.writer.w.env == w.env
            && t.writer.w.records == w.records - {id} && t.writer.w.head == w.head + w.records[id]
  {
  }

  /** Every record below the cached oldest id can be consumed, one after the other. */
  lemma {:induction false} ConsumesAll(s: State) returns (steps: seq<Step>, t: State)
    requires IsRunning(s) && s.writer.w.env < |s.oldest|
    ensures Moves(s, steps, t) && IsRunning(t) && Consumed(s.writer.w, t.writer.w, s.oldest[s.writer.w.env])
    decreases |s.writer.w.records|
  {
    hide Can, Do;
    var w, bound := s.writer.w, s.oldest[s.writer.w.env];
    if Below(w, bound) {
      steps, t := [], s;
    } else {
      var id := LeastRecord(w, bound);
      ConsumesOne(s, id);
      var u := Do(s, Consume(id));
      Fewer(w.records, id);
      steps, t := ConsumesAll(u);
      ConsumedMore(w, u.writer.w, t.writer.w, id, bound);
      OneMove(s, Consume(id), steps, t);
      steps := [Consume(id)] + steps;
    }
  }

  lemma ConsumedMore(w: Txn, w': Txn, w'': Txn, id: nat, bound: nat)
    requires id in w.records && id < bound && w'.records == w.records - {id} && w'.head == w.head + w.records[id]
    requires Consumed(w', w'', bound)
    ensures Consumed(w, w'', bound)
  {
    forall x | x in w.records && x < bound ensures w.records[x] <= w''.head {
      if x != id { assert x in w'.records && w'.records[x] == w.records[x]; }
    }
  }

  // ---- A commit --------------------------------------------------------------------------------

  /** The writer is committing to its last stage of flushing with these pages still to write. */
  lemma {:induction false} FlushAll(s: State) returns (steps: seq<Step>, t: State)
    requires s.writer.Committing? && s.writer.stage == Flushing && s.writer.pending <= s.writer.w.mem.Keys
    ensures Moves(s, steps, t) && t.metas == s.metas && t.txnid == s.txnid
    ensures t.writer == s.writer.(pending := {})
    decreases |s.writer.pending|
  {
    if s.writer.pending == {} {
      steps, t := [], s;
      assert s.writer.(pending := {}) == s.writer;
    } else {
      var p :| p in s.writer.pending;
      var u := Do(s, Flush(p));
      steps, t := FlushAll(u);
      OneMove(s, Flush(p), steps, t);
      steps := [Flush(p)] + steps;
    }
  }

  lemma SaveStarts(s: State, heads: map<nat, PageSet>)
    requires Inv(s) && CanCommit(s, Save(heads))
    ensures Can(s, Save(heads)) && |s.metas| == NUM_METAS && Base(s).txnid == s.txnid
    ensures var t, w := Do(s, Save(heads)), s.writer.w;
            && t == s.(writer := Committing(w, NewSnap(Base(s), w, heads), w.dirty, Flushing)) && w.dirty <= w.mem.Keys
  {
  }

  lemma {:induction false} MovesOn(s: State, steps: seq<Step>, u: State, more: seq<Step>, t: State)
    requires Moves(s, steps, u) && Moves(u, more, t)
    ensures Moves(s, steps + more, t)
    decreases |steps|
  {
    hide Can, Do;
    if steps == [] {
      assert [] + more == more;
    } else {
      MovesOn(Do(s, steps[0]), steps[1..], u, more, t);
      OneMove(s, steps[0], steps[1..] + more, t);
      assert [steps[0]] + (steps[1..] + more) == steps + more;
    }
  }

  lemma CommitStepDoes(s: State, step: Step)
    requires CanCommit(s, step) && (step.Sync? || step.WriteMeta? || step.Publish?)
    ensures Can(s, step)
    ensures step.Sync? ==> Do(s, step) == s.(unsynced := {}, writer := s.writer.(stage := Synced))
    ensures step.WriteMeta? ==>
              Do(s, step) == s.(metas := s.metas[s.writer.snap.txnid % 2 := s.writer.snap],
                                writer := s.writer.(stage := MetaWritten))
    ensures step.Publish? ==> Do(s, step) == s.(txnid := s.writer.snap.txnid, writer := NoWriter)
  {
  }

  /** A sync, the meta page, and the new number. */
  lemma CommitEnds(s: State) returns (steps: seq<Step>, t: State)
    requires s.writer.Committing? && s.writer.stage == Flushing && s.writer.pending == {} && |s.metas| == NUM_METAS
    ensures Moves(s, steps, t) && t.writer.NoWriter? && t.txnid == s.writer.snap.txnid
    ensures t.metas == s.metas[s.writer.snap.txnid % 2 := s.writer.snap]
  {
    hide Moves, Can, Do, CommitAfter;
    CommitStepDoes(s, Sync);
    var s3 := Do(s, Sync);
    CommitStepDoes(s3, WriteMeta);
    var s4 := Do(s3, WriteMeta);
    CommitStepDoes(s4, Publish);
    t := Do(s4, Publish);
    NoMove(t);
    OneMove(s4, Publish, [], t);
    OneMove(s3, WriteMeta, [Publish] + [], t);
    steps := [WriteMeta] + ([Publish] + []);
    OneMove(s, Sync, steps, t);
    steps := [Sync] + steps;
  }

  /** With the leftover pages listed, a commit goes through, and the snapshot it publishes has exactly the transaction's
      pages: the clean ones as they were and the dirty ones as they are in memory. */
  lemma CommitPublishes(s: State, heads: map<nat, PageSet>) returns (steps: seq<Step>, t: State)
    requires Inv(s) && CanCommit(s, Save(heads))
    ensures Moves(s, steps, t) && t.writer.NoWriter? && |t.metas| == |s.metas| == NUM_METAS && t.txnid == s.txnid + 1
    ensures var w, k := s.writer.w, Base(t);
            && k.txnid == t.txnid && k.image.Keys == w.clean + w.dirty
            && (forall p :: p in w.dirty ==> k.image[p] == w.mem[p])
            && (forall p :: p in w.clean && p !in w.dirty ==> k.image[p] == Base(s).image[p])
            && (w.freed != {} ==> t.txnid in k.free && w.freed <= k.free[t.txnid])
  {
    hide Can, Do, Inv, Moves;
    SaveStarts(s, heads);
    var s1 := Do(s, Save(heads));
    var flushes, s2 := FlushAll(s1);
    var ends;
    ends, t := CommitEnds(s2);
    MovesOn(s1, flushes, s2, ends, t);
    OneMove(s, Save(heads), flushes + ends, t);
    steps := [Save(heads)] + (flushes + ends);
  }

  ghost predicate DirtyIn(s: State, p: nat) { s.writer.Running? && p in s.writer.w.dirty }

  lemma WorkKeeps(w: Txn, b: Snap, p: nat, step: Step)
    requires TxnOK(b, w) && p in w.dirty && p in WorkAfter(w, step).dirty && (step.WritePage? ==> step.p != p)
    requires match step case AllocHead(q, n) => Pages(q, q + n) <= w.head case _ => true
    ensures p in w.mem && p in WorkAfter(w, step).mem && WorkAfter(w, step).mem[p] == w.mem[p]
  {
    hide Listed, Apart;
  }

  lemma StepKeeps(s: State, step: Step, p: nat)
    requires Inv(s) && Can(s, step) && DirtyIn(s, p) && DirtyIn(Do(s, step), p) && (step.WritePage? ==> step.p != p)
    ensures p in s.writer.w.mem && p in Do(s, step).writer.w.mem && Do(s, step).writer.w.mem[p] == s.writer.w.mem[p]
  {
    hide WorkAfter, TxnOK, SnapOK, Kept, AllHeldOK, ReadersOK, ScanOK;
    if CanWork(s, step) { WorkKeeps(s.writer.w, Base(s), p, step); } else { MemHas(s, p); }
  }

  lemma MemHas(s: State, p: nat)
    requires Inv(s) && DirtyIn(s, p)
    ensures p in s.writer.w.mem
  {
    hide Listed, Apart;
  }

  /** In every run a page that stays dirty keeps what was last written to it, for the commit to publish. */
  lemma {:induction false} WriteLasts(states: seq<State>, steps: seq<Step>, i: nat, k: nat, p: nat, c: Content)
    requires Run(states, steps) && i < k < |states| && steps[i] == WritePage(p, c)
    requires forall x :: i < x <= k ==> DirtyIn(states[x], p)
    requires forall x :: i < x < k && steps[x].WritePage? ==> steps[x].p != p
    ensures DirtyIn(states[k], p) && p in states[k].writer.w.mem && states[k].writer.w.mem[p] == c
    decreases k
  {
    hide Init, Can, Do, Inv, DirtyIn;
    assert DirtyIn(states[k], p);
    if k == i + 1 {
      Writes(states[i], p, c);
    } else {
      WriteLasts(states, steps, i, k - 1, p, c);
      RunInv(states, steps, k - 1);
      assert steps[k-1].WritePage? ==> steps[k-1].p != p;
      StepKeeps(states[k-1], steps[k-1], p);
    }
  }

  lemma Writes(s: State, p: nat, c: Content)
    requires Can(s, WritePage(p, c))
    ensures var t := Do(s, WritePage(p, c)); t.writer.Running? && p in t.writer.w.mem && t.writer.w.mem[p] == c
  {
  }

  // ---- A reader --------------------------------------------------------------------------------

  /** A reader that is not disturbed registers the last committed id and gets to read the snapshot of that id. */
  lemma ReaderReads(s: State, r: nat) returns (steps: seq<Step>, t: State)
    requires |s.metas| == NUM_METAS && r < |s.readers| && s.readers[r].phase.Out?
    ensures Moves(s, steps, t) && t == s.(readers := s.readers[r := Reader(Some(s.txnid), Reading(Base(s)))])
  {
    hide Moves;
    var s1 := Do(s, Load(r));
    var s2 := Do(s1, Store(r));
    var s3 := Do(s2, Recheck(r));
    t := Do(s3, CopyMeta(r));
    NoMove(t);
    OneMove(s3, CopyMeta(r), [], t);
    OneMove(s2, Recheck(r), [CopyMeta(r)] + [], t);
    steps := [Recheck(r)] + ([CopyMeta(r)] + []);
    OneMove(s1, Store(r), steps, t);
    steps := [Store(r)] + steps;
    OneMove(s, Load(r), steps, t);
    steps := [Load(r)] + steps;
    assert t.readers == s.readers[r := Reader(Some(s.txnid), Reading(Base(s)))];
  }

  /** When it ends, its slot is free again and everything is as it was before it began. */
  lemma ReaderPasses(s: State, r: nat) returns (steps: seq<Step>, t: State)
    requires |s.metas| == NUM_METAS && r < |s.readers| && s.readers[r].phase.Out?
    ensures Moves(s, steps, t) && t == s.(readers := s.readers[r := Reader(None, Out)])
  {
    hide Moves;
    var begun, u := ReaderReads(s, r);
    t := Do(u, EndRead(r));
    NoMove(t);
    OneMove(u, EndRead(r), [], t);
    steps := begun + ([EndRead(r)] + []);
    MovesOn(s, begun, u, [EndRead(r)] + [], t);
    assert t.readers == s.readers[r := Reader(None, Out)];
  }

  lemma NoMove(s: State)
    ensures Moves(s, [], s)
  {
  }
}
