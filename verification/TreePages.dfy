/** The pages of a tree in the write transaction: after every put and delete the clean and dirty pages are those that the
    tree reaches and those of other trees, each once, and the steps that make it so are steps of the page machine. */
module TreePages {
  import opened Keys
  import opened BTree
  import opened BTreePut
  import opened BTreeDelete
  import opened PageTree
  import opened PageTreeDelete
  import Machine = Transactions
  import Safety = TransactionSafety

  function Numbers(m: multiset<nat>): (s: set<nat>)
    ensures forall p :: p in s <==> p in m
  {
    set p | p in m
  }

  ghost predicate Once(m: multiset<nat>) { forall p :: m[p] <= 1 }

  /** A call begins: nothing is taken or given back yet, and the allocator hands out pages the tree does not have, none
      of them twice. */
  ghost predicate Begins(a: Alloc, m: multiset<nat>) {
    && a.used == 0 && a.taken == multiset{} && a.freed == multiset{} && a.loose == multiset{} && a.dirty == a.owned
    && (forall i: nat, j: nat :: i < j ==> a.pick(i) != a.pick(j)) && (forall i: nat :: a.pick(i) !in m)
  }

  lemma {:induction false} PicksOnce(pick: nat -> nat, n: nat, p: nat)
    requires forall i: nat, j: nat :: i < j ==> pick(i) != pick(j)
    ensures Picks(pick, n)[p] <= 1 && (p in Picks(pick, n) ==> exists i: nat :: i < n && pick(i) == p)
  {
    if n > 0 {
      PicksOnce(pick, n - 1, p);
      if pick(n - 1) == p { assert n - 1 < n; }
    }
  }

  /** After a call no page occurs twice, and none that was given back is still in the tree. */
  lemma EveryPageOnce(m: multiset<nat>, a: Alloc, m': multiset<nat>, a': Alloc)
    requires Begins(a, m) && Once(m) && Accounted(m, a, m', a')
    ensures forall p :: m'[p] + a'.freed[p] + a'.loose[p] == m[p] + a'.taken[p] <= 1
    ensures a'.owned == a.owned && AllocOK(a')
  {
    assert AllocOK(a);
    forall p ensures m'[p] + a'.freed[p] + a'.loose[p] == m[p] + a'.taken[p] <= 1 {
      PicksOnce(a'.pick, a'.used, p);
    }
  }

  // ---- In the transaction ----------------------------------------------------------------------

  /** The transaction's pages are those of the tree, each once, and `others`. */
  ghost predicate TreeIn(w: Machine.Txn, m: multiset<nat>, others: set<nat>) {
    Once(m) && Numbers(m) !! others && w.clean + w.dirty == Numbers(m) + others
  }

  /** The transaction after pages were given back. */
  function Returned(w: Machine.Txn, clean: set<nat>, dirty: set<nat>, loose: set<nat>): Machine.Txn {
    w.(clean := w.clean - clean, dirty := w.dirty - dirty - loose, freed := w.freed + clean + dirty, loose := w.loose + loose)
  }

  lemma WorkMove(s: Machine.State, step: Machine.Step)
    requires Safety.Inv(s) && Machine.CanWork(s, step)
    requires step.FreeClean? || step.FreeDirty? || step.Loosen?
    ensures Machine.Can(s, step) && Safety.Inv(Machine.Do(s, step))
    ensures Machine.Do(s, step) == s.(writer := Machine.Running(Machine.WorkAfter(s.writer.w, step)))
    ensures Machine.IsRunning(Machine.Do(s, step))
  {
    hide Safety.Inv, Machine.WorkAfter;
    Safety.StepInv(s, step);
    ScanKept(s.writer.w, step);
  }

  lemma ScanKept(w: Machine.Txn, step: Machine.Step)
    ensures Machine.WorkAfter(w, step).scan == w.scan
  {
  }

  lemma ReturnedNothing(w: Machine.Txn)
    ensures Returned(w, {}, {}, {}) == w
  {
    assert w.clean - {} == w.clean && w.dirty - {} - {} == w.dirty && w.freed + {} + {} == w.freed && w.loose + {} == w.loose;
  }

  lemma ReturnedMore(w: Machine.Txn, p: nat, ps: set<nat>)
    requires p in ps
    ensures Returned(Machine.WorkAfter(w, Machine.Loosen(p)), {}, {}, ps - {p}) == Returned(w, {}, {}, ps)
  {
    assert w.dirty - {p} - {} - (ps - {p}) == w.dirty - {} - ps;
    assert w.loose + {p} + (ps - {p}) == w.loose + ps;
  }

  lemma ReturnedFreed(w: Machine.Txn, clean: set<nat>, dirty: set<nat>, loose: set<nat>)
    ensures Returned(Machine.WorkAfter(Machine.WorkAfter(w, Machine.FreeClean(clean)), Machine.FreeDirty(dirty)), {}, {}, loose)
            == Returned(w, clean, dirty, loose)
  {
    assert w.clean - clean - {} == w.clean - clean;
    assert w.dirty - dirty - {} - loose == w.dirty - dirty - loose;
    assert w.freed + clean + dirty + {} + {} == w.freed + clean + dirty;
  }

  lemma {:induction false} LoosenAll(s: Machine.State, ps: set<nat>) returns (steps: seq<Machine.Step>, t: Machine.State)
    requires Safety.Inv(s) && Machine.IsRunning(s) && ps <= s.writer.w.dirty
    ensures Machine.Moves(s, steps, t) && Safety.Inv(t)
    ensures t == s.(writer := Machine.Running(Returned(s.writer.w, {}, {}, ps)))
    decreases |ps|
  {
    hide Safety.Inv, Machine.Can, Machine.Do, Returned;
    if ps == {} {
      ReturnedNothing(s.writer.w);
      steps, t := [], s;
    } else {
      var p :| p in ps;
      var step := Machine.Loosen(p);
      WorkMove(s, step);
      ReturnedMore(s.writer.w, p, ps);
      var u := Machine.Do(s, step);
      steps, t := LoosenAll(u, ps - {p});
      Machine.OneMove(s, step, steps, t);
      steps := [step] + steps;
    }
  }

  lemma ReturnAll(s: Machine.State, clean: set<nat>, dirty: set<nat>, loose: set<nat>)
    returns (steps: seq<Machine.Step>, t: Machine.State)
    requires Safety.Inv(s) && Machine.IsRunning(s)
    requires clean <= s.writer.w.clean && dirty + loose <= s.writer.w.dirty && dirty !! loose
    ensures Machine.Moves(s, steps, t) && Safety.Inv(t)
    ensures t == s.(writer := Machine.Running(Returned(s.writer.w, clean, dirty, loose)))
  {
    hide Safety.Inv, Machine.Can, Machine.Do, Returned;
    var one, two := Machine.FreeClean(clean), Machine.FreeDirty(dirty);
    WorkMove(s, one);
    var s1 := Machine.Do(s, one);
    WorkMove(s1, two);
    ReturnedFreed(s.writer.w, clean, dirty, loose);
    var s2 := Machine.Do(s1, two);
    steps, t := LoosenAll(s2, loose);
    Machine.OneMove(s1, two, steps, t);
    Machine.OneMove(s, one, [two] + steps, t);
    steps := [one] + ([two] + steps);
  }

  /** Allocating adds pages that the transaction did not have. */
  lemma AllocatedIn(b: Machine.Snap, w: Machine.Txn, m: multiset<nat>, others: set<nat>, step: Machine.Step)
    requires Safety.TxnOK(b, w) && TreeIn(w, m, others)
    requires match step
             case AllocLoose(p) => p in w.loose
             case AllocHead(p, n) => Machine.Pages(p, p + n) <= w.head
             case AllocNew(n) => true
             case _ => false
    ensures var w' := Machine.WorkAfter(w, step);
            var taken := w'.dirty - w.dirty;
            TreeIn(w', m, others + taken) && others !! taken && w'.dirty == w.dirty + taken && Numbers(m) !! taken
  {
    hide Machine.Listed, Machine.Apart;
  }

  lemma PagesStay(w: Machine.Txn, m: multiset<nat>, a: Alloc, m': multiset<nat>, a': Alloc, others: set<nat>)
    requires Begins(a, m) && Accounted(m, a, m', a') && w.clean !! w.dirty
    requires Numbers(a'.taken) <= w.dirty && a.owned == w.dirty - Numbers(a'.taken)
    requires others !! Numbers(a'.taken) && TreeIn(w, m, others + Numbers(a'.taken))
    ensures var freed, loose := Numbers(a'.freed), Numbers(a'.loose);
            && freed <= w.clean + w.dirty && loose <= w.dirty && freed !! loose
            && TreeIn(Returned(w, freed * w.clean, freed * w.dirty, loose), m', others)
  {
    hide Accounted, Begins, AllocOK;
    EveryPageOnce(m, a, m', a');
    DirtyNow(a');
    var freed, loose := Numbers(a'.freed), Numbers(a'.loose);
    forall p ensures p in m' <==> p in w.clean + w.dirty && p !in freed && p !in loose && p !in others {
      assert m'[p] + a'.freed[p] + a'.loose[p] == m[p] + a'.taken[p] <= 1;
    }
    forall p ensures p in freed ==> p in w.clean + w.dirty && p !in others && p !in loose {
      assert m'[p] + a'.freed[p] + a'.loose[p] == m[p] + a'.taken[p] <= 1;
    }
    forall p ensures p in loose ==> p !in others {
      assert m'[p] + a'.freed[p] + a'.loose[p] == m[p] + a'.taken[p] <= 1;
    }
  }

  lemma DirtyNow(a: Alloc)
    requires AllocOK(a)
    ensures Numbers(a.loose) <= a.dirty && a.dirty == a.owned + Numbers(a.taken)
  {
  }

  lemma WriterApart(s: Machine.State)
    requires Safety.Inv(s) && Machine.IsRunning(s)
    ensures s.writer.w.clean !! s.writer.w.dirty
  {
  }

  /** Once its pages are allocated, a call gives pages back by steps of the machine, and the transaction's pages are again
      those of the tree, each once, and the others. */
  lemma CallFollows(s: Machine.State, m: multiset<nat>, a: Alloc, m': multiset<nat>, a': Alloc, others: set<nat>)
    returns (steps: seq<Machine.Step>, t: Machine.State)
    requires Safety.Inv(s) && Machine.IsRunning(s) && Begins(a, m) && Accounted(m, a, m', a')
    requires var w := s.writer.w;
             && Numbers(a'.taken) <= w.dirty && a.owned == w.dirty - Numbers(a'.taken)
             && others !! Numbers(a'.taken) && TreeIn(w, m, others + Numbers(a'.taken))
    ensures Machine.Moves(s, steps, t) && Safety.Inv(t) && Machine.IsRunning(t) && TreeIn(t.writer.w, m', others)
    ensures t.writer.w.clean <= s.writer.w.clean && s.writer.w.dirty == a'.dirty
  {
    hide Safety.Inv, Begins, Accounted, TreeIn, Machine.Moves;
    var w := s.writer.w;
    WriterApart(s);
    PagesStay(w, m, a, m', a', others);
    TakenDirty(m, a, m', a', others, w);
    var freed, loose := Numbers(a'.freed), Numbers(a'.loose);
    steps, t := ReturnAll(s, freed * w.clean, freed * w.dirty, loose);
  }

  lemma TakenDirty(m: multiset<nat>, a: Alloc, m': multiset<nat>, a': Alloc, others: set<nat>, w: Machine.Txn)
    requires Begins(a, m) && Accounted(m, a, m', a') && TreeIn(w, m, others + Numbers(a'.taken))
    requires Numbers(a'.taken) <= w.dirty && a.owned == w.dirty - Numbers(a'.taken)
    ensures w.dirty == a'.dirty
  {
    hide Accounted, Begins, AllocOK;
    EveryPageOnce(m, a, m', a');
    DirtyNow(a');
  }

  // ---- Put and delete --------------------------------------------------------------------------

  /** The transaction holds the tree's pages and those the call takes. */
  ghost predicate Ready(s: Machine.State, db: PDb, a: Alloc, a': Alloc, others: set<nat>) {
    && Safety.Inv(s) && Machine.IsRunning(s) && Begins(a, DbPages(db))
    && Numbers(a'.taken) <= s.writer.w.dirty && a.owned == s.writer.w.dirty - Numbers(a'.taken)
    && others !! Numbers(a'.taken) && TreeIn(s.writer.w, DbPages(db), others + Numbers(a'.taken))
  }

  /** What a call leaves: a state the machine reaches in which the pages are the new tree's and the others', and the clean
      ones hold what they held. */
  ghost predicate Followed(s: Machine.State, db: PDb, db': PDb, others: set<nat>, steps: seq<Machine.Step>, t: Machine.State) {
    && Machine.IsRunning(s) && Machine.Moves(s, steps, t) && Safety.Inv(t) && Machine.IsRunning(t)
    && TreeIn(t.writer.w, DbPages(db'), others)
    && t.writer.w.clean <= s.writer.w.clean
    && forall x :: x in DbImages(db') && x.page in t.writer.w.clean ==> x in DbImages(db)
  }

  lemma PutFollows(env: Env, db: PDb, k: Key, v: seq<byte>, dirty: bool, a: Alloc, s: Machine.State, others: set<nat>)
    returns (steps: seq<Machine.Step>, t: Machine.State)
    requires env.Valid() && PutPagesDb(env, db, k, v, dirty, a).0.POk?
    requires Ready(s, db, a, PutPagesDb(env, db, k, v, dirty, a).1, others)
    ensures Followed(s, db, PutPagesDb(env, db, k, v, dirty, a).0.db, others, steps, t)
  {
    hide PutPagesDb, DbPages, DbImages, Machine.Moves, Safety.Inv, Begins, TreeIn, Accounted, BarePut;
    var (r, a') := PutPagesDb(env, db, k, v, dirty, a);
    PutCopies(env, db, k, v, dirty, a);
    steps, t := CallFollows(s, DbPages(db), a, DbPages(r.db), a', others);
    CleanHolds(s, db, r.db, a', t);
  }

  lemma DeleteFollows(env: Env, db: PDb, k: Key, a: Alloc, s: Machine.State, others: set<nat>)
    returns (steps: seq<Machine.Step>, t: Machine.State)
    requires env.Valid() && DbOK(env, BareDb(db)) && DeletePagesDb(env, db, k, a).0.PDeleted?
    requires Ready(s, db, a, DeletePagesDb(env, db, k, a).1, others)
    ensures Followed(s, db, DeletePagesDb(env, db, k, a).0.db, others, steps, t)
  {
    hide DeletePagesDb, DbPages, DbImages, Machine.Moves, Safety.Inv, Begins, TreeIn, Accounted, BareDelete, DbOK;
    var (r, a') := DeletePagesDb(env, db, k, a);
    DeleteCopies(env, db, k, a);
    steps, t := CallFollows(s, DbPages(db), a, DbPages(r.db), a', others);
    CleanHolds(s, db, r.db, a', t);
  }

  lemma CleanHolds(s: Machine.State, db: PDb, db': PDb, a: Alloc, t: Machine.State)
    requires Safety.Inv(s) && Machine.IsRunning(s) && Machine.IsRunning(t) && t.writer.w.clean <= s.writer.w.clean
    requires s.writer.w.dirty == a.dirty && Kept(DbImages(db), a.dirty, DbImages(db'))
    ensures forall x :: x in DbImages(db') && x.page in t.writer.w.clean ==> x in DbImages(db)
  {
    hide Safety.Inv, DbImages;
    WriterApart(s);
  }
}
