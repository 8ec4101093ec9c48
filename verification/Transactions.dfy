/** Readers, the writer, the page allocator, commit and crash as one machine of small steps.

    Pages are numbers; a snapshot names the pages its trees reach with their contents, and the freeDB
    records it holds. A step is one access to memory or to the file that other parties can see.
    Meta pages are written and copied atomically; an unsynced page may hold anything after a crash. */
module Transactions {
  import opened Keys

  type Content = seq<byte>
  type PageSet = set<nat>

  const NUM_METAS := 2

  /** What a meta page leads to (MDB_meta). */
  datatype Snap = Snap(txnid: nat, image: map<nat, Content>, free: map<nat, PageSet>, last: nat)

  /** Read transactions register in small steps; `seen` is a loaded value that is not stored yet. */
  datatype Phase = Out | Loaded(seen: nat) | Stored | Checked | Reading(snap: Snap)
  datatype Reader = Reader(slot: Option<nat>, phase: Phase)

  /** mdb_find_oldest on its way through the reader table. */
  datatype Scan = NoScan | Scan(left: nat, least: nat)

  /** The write transaction. `clean` pages of its tree are the old snapshot's, `dirty` ones were allocated;
      `mem` holds the pages with a copy in memory, `head` is me_pghead, `freed` is mt_free_pgs. */
  datatype Txn = Txn(
    env: nat, clean: PageSet, dirty: PageSet, head: PageSet, freed: PageSet, loose: PageSet,
    records: map<nat, PageSet>, pglast: nat, next: nat, mem: map<nat, Content>, scan: Scan)

  datatype Stage = Flushing | Synced | MetaWritten
  datatype Writer = NoWriter | Running(w: Txn) | Committing(w: Txn, snap: Snap, pending: PageSet, stage: Stage)

  /** `txnid` is mti_txnid; `oldest` is me_pgoldest of each process. */
  datatype State = State(
    metas: seq<Snap>, txnid: nat, readers: seq<Reader>, oldest: seq<nat>,
    writer: Writer, file: map<nat, Content>, unsynced: PageSet)

  datatype Step =
    | Claim | Load(r: nat) | Store(r: nat) | Recheck(r: nat) | CopyMeta(r: nat) | EndRead(r: nat)
    | Begin(env: nat) | ScanStart | ScanSlot | ScanEnd
    | Consume(id: nat) | AllocLoose(p: nat) | AllocHead(p: nat, n: nat) | AllocNew(n: nat)
    | FreeClean(ps: PageSet) | FreeDirty(ps: PageSet) | Loosen(p: nat) | ReturnRun(p: nat, n: nat)
    | WritePage(p: nat, c: Content)
    | Save(heads: map<nat, PageSet>) | Flush(p: nat) | Sync | WriteMeta | Publish
    | Abort | Crash(after: map<nat, Content>, processes: nat)

  function Pages(lo: nat, hi: nat): (ps: PageSet)
    ensures forall p :: p in ps <==> lo <= p < hi
    decreases hi
  {
    if lo >= hi then {} else Pages(lo, hi - 1) + {hi - 1}
  }

  function Listed(free: map<nat, PageSet>): PageSet { set id, p | id in free && p in free[id] :: p }

  predicate Apart(free: map<nat, PageSet>) {
    forall a, b :: a in free && b in free && a != b ==> free[a] !! free[b]
  }

  // ---- Access to the parts -----------------------------------------------------------------

  function MetaFor(s: State, txnid: nat): Snap
    requires |s.metas| == NUM_METAS
  {
    s.metas[txnid % 2]
  }

  /** The last published snapshot: what the writer starts from. */
  function Base(s: State): Snap
    requires |s.metas| == NUM_METAS
  {
    MetaFor(s, s.txnid)
  }

  /** mdb_env_pick_meta: the newer of the two meta pages. */
  function PickMeta(metas: seq<Snap>): Snap
    requires |metas| == NUM_METAS
  {
    if metas[0].txnid < metas[1].txnid then metas[1] else metas[0]
  }

  /** Snapshots somebody can read: both meta pages', and those of the active readers. */
  function Held(s: State): set<Snap> {
    (set k | k in s.metas) + (set r | r in s.readers && r.phase.Reading? :: r.phase.snap)
  }

  predicate IsRunning(s: State) { s.writer.Running? && s.writer.w.scan.NoScan? }

  /** Free pages go back under the ids of the records they came from, or stay with the pages freed now. */
  function SavedFreed(w: Txn): PageSet { if w.pglast == 0 then w.freed + w.loose else w.freed }

  function SavedHead(w: Txn): PageSet { if w.pglast == 0 then {} else w.head + w.loose }

  function NewSnap(b: Snap, w: Txn, heads: map<nat, PageSet>): Snap
    requires w.dirty <= w.mem.Keys && w.clean <= b.image.Keys
    requires w.next > 0
  {
    var id := b.txnid + 1;
    var own := if SavedFreed(w) == {} then map[] else map[id := SavedFreed(w)];
    Snap(id, map p | p in w.clean + w.dirty :: if p in w.dirty then w.mem[p] else b.image[p],
         w.records + heads + own, w.next - 1)
  }

  // ---- Steps -------------------------------------------------------------------------------

  predicate CanRead(s: State, step: Step) {
    match step
    case Claim => true
    case Load(r) => r < |s.readers| && s.readers[r].phase.Out?
    case Store(r) => r < |s.readers| && s.readers[r].phase.Loaded?
    case Recheck(r) => r < |s.readers| && s.readers[r].phase.Stored? && s.readers[r].slot.Some?
    case CopyMeta(r) => r < |s.readers| && s.readers[r].phase.Checked? && s.readers[r].slot.Some? && |s.metas| == NUM_METAS
    case EndRead(r) => r < |s.readers| && s.readers[r].phase.Reading?
    case _ => false
  }

  function ReaderAfter(s: State, step: Step): Reader
    requires CanRead(s, step) && step != Claim
  {
    var old_ := s.readers[step.r];
    match step
    case Load(r) => old_.(phase := Loaded(s.txnid))
    case Store(r) => Reader(Some(old_.phase.seen), Stored)
    case Recheck(r) => old_.(phase := if old_.slot.value == s.txnid then Checked else Out)
    case CopyMeta(r) => old_.(phase := Reading(MetaFor(s, old_.slot.value)))
    case EndRead(r) => Reader(None, Out)
  }

  predicate CanScan(s: State, step: Step) {
    match step
    case ScanStart => IsRunning(s)
    case ScanSlot =>
      s.writer.Running? && s.writer.w.scan.Scan? && 0 < s.writer.w.scan.left <= |s.readers|
    case ScanEnd =>
      s.writer.Running? && s.writer.w.scan.Scan? && s.writer.w.scan.left == 0 && s.writer.w.env < |s.oldest|
    case _ => false
  }

  function ScanAfter(s: State, step: Step): Scan
    requires CanScan(s, step)
  {
    match step
    case ScanStart => Scan(|s.readers|, s.txnid)
    case ScanSlot =>
      var sc := s.writer.w.scan;
      var slot := s.readers[sc.left - 1].slot;
      Scan(sc.left - 1, if slot.Some? && slot.value < sc.least then slot.value else sc.least)
    case ScanEnd => NoScan
  }

  /** Allocating, freeing and changing pages within the write transaction. */
  predicate CanWork(s: State, step: Step) {
    IsRunning(s) &&
    var w := s.writer.w;
    match step
    case Consume(id) =>
      && id in w.records && w.env < |s.oldest| && id < s.oldest[w.env]
      && forall other :: other in w.records ==> id <= other
    case AllocLoose(p) => p in w.loose
    case AllocHead(p, n) => n > 0 && Pages(p, p + n) <= w.head
    case AllocNew(n) => n > 0
    case FreeClean(ps) => ps <= w.clean
    case FreeDirty(ps) => ps <= w.dirty
    case Loosen(p) => p in w.dirty
    case ReturnRun(p, n) => w.pglast > 0 && Pages(p, p + n) <= w.dirty
    case WritePage(p, _) => p in w.dirty
    case _ => false
  }

  function Fresh(ps: PageSet): map<nat, Content> { map p | p in ps :: [] }

  function WorkAfter(w: Txn, step: Step): Txn {
    match step
    case Consume(id) =>
      if id !in w.records then w else
      w.(head := w.head + w.records[id], records := w.records - {id}, pglast := id)
    case AllocLoose(p) => w.(loose := w.loose - {p}, dirty := w.dirty + {p})
    case AllocHead(p, n) =>
      var run := Pages(p, p + n);
      w.(head := w.head - run, dirty := w.dirty + run, mem := w.mem + Fresh(run))
    case AllocNew(n) =>
      var run := Pages(w.next, w.next + n);
      w.(next := w.next + n, dirty := w.dirty + run, mem := w.mem + Fresh(run))
    case FreeClean(ps) => w.(clean := w.clean - ps, freed := w.freed + ps)
    case FreeDirty(ps) => w.(dirty := w.dirty - ps, freed := w.freed + ps)
    case Loosen(p) => w.(dirty := w.dirty - {p}, loose := w.loose + {p})
    case ReturnRun(p, n) =>
      var run := Pages(p, p + n);
      w.(dirty := w.dirty - run, head := w.head + run, mem := w.mem - run)
    case WritePage(p, c) => w.(mem := w.mem[p := c])
    case _ => w
  }

  predicate CanCommit(s: State, step: Step) {
    match step
    case Begin(env) => s.writer.NoWriter? && env < |s.oldest| && |s.metas| == NUM_METAS
    case Save(heads) =>
      && IsRunning(s) && |s.metas| == NUM_METAS
      && var w := s.writer.w;
      && w.dirty <= w.mem.Keys && w.clean <= Base(s).image.Keys && w.next > 0
      && Apart(heads) && Listed(heads) == SavedHead(w)
      && forall id :: id in heads ==> 1 <= id <= w.pglast
    case Flush(p) => s.writer.Committing? && s.writer.stage == Flushing && p in s.writer.w.mem
    case Sync => s.writer.Committing? && s.writer.stage == Flushing && s.writer.pending == {}
    case WriteMeta => s.writer.Committing? && s.writer.stage == Synced && |s.metas| == NUM_METAS
    case Publish => s.writer.Committing? && s.writer.stage == MetaWritten
    case Abort => (s.writer.Running? || (s.writer.Committing? && s.writer.stage != MetaWritten))
    case _ => false
  }

  function StartTxn(b: Snap, env: nat): Txn {
    Txn(env, b.image.Keys, {}, {}, {}, {}, b.free, 0, b.last + 1, map[], NoScan)
  }

  function CommitAfter(s: State, step: Step): State
    requires CanCommit(s, step)
  {
    match step
    case Begin(env) => s.(writer := Running(StartTxn(Base(s), env)))
    case Save(heads) =>
      var w := s.writer.w;
      s.(writer := Committing(w, NewSnap(Base(s), w, heads), w.dirty, Flushing))
    case Flush(p) =>
      s.(file := s.file[p := s.writer.w.mem[p]], unsynced := s.unsynced + {p},
         writer := s.writer.(pending := s.writer.pending - {p}))
    case Sync => s.(unsynced := {}, writer := s.writer.(stage := Synced))
    case WriteMeta =>
      s.(metas := s.metas[s.writer.snap.txnid % 2 := s.writer.snap], writer := s.writer.(stage := MetaWritten))
    case Publish => s.(txnid := s.writer.snap.txnid, writer := NoWriter)
    case Abort => s.(writer := NoWriter)
  }

  /** A crash loses everything but the file, which any number of processes open again; pages not synced since they were
      written hold anything. */
  predicate CanCrash(s: State, after: map<nat, Content>) {
    |s.metas| == NUM_METAS && forall p :: p in s.file && p !in s.unsynced ==> p in after && after[p] == s.file[p]
  }

  function CrashAfter(s: State, after: map<nat, Content>, processes: nat): State
    requires |s.metas| == NUM_METAS
  {
    State(s.metas, PickMeta(s.metas).txnid, [], seq(processes, _ => 0), NoWriter, after, {})
  }

  predicate Can(s: State, step: Step) {
    CanRead(s, step) || CanScan(s, step) || CanWork(s, step) || CanCommit(s, step)
    || (step.Crash? && CanCrash(s, step.after))
  }

  function Do(s: State, step: Step): State
    requires Can(s, step)
  {
    if step.Claim? then s.(readers := s.readers + [Reader(None, Out)])
    else if CanRead(s, step) then s.(readers := s.readers[step.r := ReaderAfter(s, step)])
    else if CanScan(s, step) then
      var w := s.writer.w;
      s.(oldest := if step.ScanEnd? then s.oldest[w.env := w.scan.least] else s.oldest,
         writer := Running(w.(scan := ScanAfter(s, step))))
    else if CanWork(s, step) then s.(writer := Running(WorkAfter(s.writer.w, step)))
    else if CanCommit(s, step) then CommitAfter(s, step)
    else CrashAfter(s, step.after, step.processes)
  }

  /** A new environment: two equal meta pages, no data page (mdb_env_init_meta). */
  predicate Init(s: State) {
    && |s.metas| == NUM_METAS && s.metas[0] == s.metas[1] == Snap(0, map[], map[], NUM_METAS - 1)
    && s.txnid == 0 && s.readers == [] && s.writer.NoWriter? && s.unsynced == {}
    && forall e :: 0 <= e < |s.oldest| ==> s.oldest[e] == 0
  }

  /** A run: states and the steps between them. */
  predicate Run(states: seq<State>, steps: seq<Step>) {
    && |states| == |steps| + 1 && Init(states[0])
    && forall i :: 0 <= i < |steps| ==> Can(states[i], steps[i]) && states[i+1] == Do(states[i], steps[i])
  }

  /** Steps of the machine from one state to another. */
  ghost predicate Moves(s: State, steps: seq<Step>, t: State)
    decreases |steps|
  {
    if steps == [] then s == t
    else Can(s, steps[0]) && Moves(Do(s, steps[0]), steps[1..], t)
  }

  lemma OneMove(s: State, step: Step, rest: seq<Step>, t: State)
    requires Can(s, step) && Moves(Do(s, step), rest, t)
    ensures Moves(s, [step] + rest, t)
  {
    assert ([step] + rest)[1..] == rest;
  }
}
