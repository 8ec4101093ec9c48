/** Delete (mdb_cursor_del0) with rebalancing: node moves, page merges, separator updates and root collapse.

    Moving a node rewrites a separator one level up; when the new separator is longer than the old one
    the parent page may have to split, so a delete can make the tree grow. */
module BTreeDelete {
  import opened Keys
  import opened SplitPoint
  import opened BTree
  import opened BTreePut

  /** What a delete did to a page: nothing more to do above but put it back, or its parent must check its fill. */
  datatype Removal = Stable(c: Change) | Check(t: Tree)

  /** The two pages of a parent after a node moved between them, with their new separator. */
  datatype Shift = Shifted(left: Tree, sep: Key, right: Tree) | NoRoom

  const FILL_THRESHOLD := 250

  function Count(t: Tree): nat {
    if t.Leaf? then |t.ents| else |t.kids|
  }

  function Used(t: Tree): nat {
    if t.Leaf? then LeafUsed(t.ents) else BranchUsed(t.kids)
  }

  /** Share of the page in use, in tenths of a percent. */
  function PageFill(env: Env, t: Tree): nat
    requires env.Valid()
  {
    Quotient(1000 * Used(t), env.PMax())
  }

  function MinKeys(t: Tree): nat { if t.Leaf? then 1 else 2 }

  function Threshold(t: Tree): nat { if t.Leaf? then FILL_THRESHOLD else 1 }

  /** The first key of the leftmost leaf below a page. */
  function Lowest(t: Tree): Key
    decreases t
  {
    match t
    case Leaf(ents) => if ents == [] then [] else ents[0].key
    case Branch(kids) => if kids == [] then [] else Lowest(kids[0].tree)
  }

  /** The nodes of `r` appended to `l`; on branch pages the first one gets the lowest key below it. */
  function Joined(l: Tree, r: Tree): Tree {
    if l.Leaf? && r.Leaf? then Leaf(l.ents + r.ents)
    else if l.Branch? && r.Branch? && r.kids != [] then
      Branch(l.kids + ([Kid(Lowest(r.kids[0].tree), r.kids[0].tree)] + r.kids[1..]))
    else l
  }

  /** Move the first node of the right page to the end of the left one. */
  function MoveLeft(env: Env, l: Tree, r: Tree): Shift
    requires env.Valid()
  {
    if l.Leaf? && r.Leaf? && |r.ents| > 1 then
      var l' := Leaf(l.ents + [r.ents[0]]);
      if Used(l') > env.PMax() then NoRoom else Shifted(l', r.ents[1].key, Leaf(r.ents[1..]))
    else if l.Branch? && r.Branch? && |r.kids| > 1 then
      var l' := Branch(l.kids + [Kid(Lowest(r.kids[0].tree), r.kids[0].tree)]);
      if Used(l') > env.PMax() then NoRoom
      else Shifted(l', r.kids[1].sep, Branch([Kid([], r.kids[1].tree)] + r.kids[2..]))
    else NoRoom
  }

  /** Move the last node of the left page to the front of the right one. */
  function MoveRight(env: Env, l: Tree, r: Tree): Shift
    requires env.Valid()
  {
    if l.Leaf? && r.Leaf? && |l.ents| > 1 then
      var n := |l.ents| - 1;
      var r' := Leaf([l.ents[n]] + r.ents);
      if Used(r') > env.PMax() then NoRoom else Shifted(Leaf(l.ents[..n]), l.ents[n].key, r')
    else if l.Branch? && r.Branch? && |l.kids| > 1 && r.kids != [] then
      var n := |l.kids| - 1;
      var rest := [Kid(Lowest(r.kids[0].tree), r.kids[0].tree)] + r.kids[1..];
      // the moved node is added with its key before the key of slot 0 is cleared
      if BranchUsed([l.kids[n]] + rest) > env.PMax() then NoRoom
      else Shifted(Branch(l.kids[..n]), l.kids[n].sep, Branch([Kid([], l.kids[n].tree)] + rest))
    else NoRoom
  }

  /** Replace the key of branch node `j`; a longer key that does not fit deletes and re-adds the node by a split. */
  function UpdateKey(env: Env, kids: seq<Kid>, j: nat, sep: Key): Change
    requires env.Valid() && j < |kids|
  {
    var all := kids[j := Kid(sep, kids[j].tree)];
    var delta := Even(|sep|) - Even(|kids[j].sep|);
    if delta > 0 && env.PMax() - BranchUsed(kids) < delta then SplitBranch(env, all, j) else Fits(Branch(all))
  }

  predicate Filled(env: Env, t: Tree)
    requires env.Valid()
  {
    PageFill(env, t) >= Threshold(t) && Count(t) >= MinKeys(t)
  }

  predicate CanGive(env: Env, t: Tree, like: Tree)
    requires env.Valid()
  {
    PageFill(env, t) >= Threshold(like) && Count(t) > MinKeys(like)
  }

  /** Child `i` shrank to `t`: leave it, take a node from a neighbour, or merge the two pages. */
  function Rebalance(env: Env, kids: seq<Kid>, i: nat, t: Tree): Removal
    requires env.Valid() && i < |kids|
  {
    if Filled(env, t) then Stable(Fits(Branch(kids[i := Kid(kids[i].sep, t)])))
    else if |kids| < 2 then Stable(Full)
    else if i == 0 then
      if CanGive(env, kids[1].tree, t) then AfterMove(env, kids, 0, MoveLeft(env, t, kids[1].tree))
      else Merge(env, kids, 0, t, kids[1].tree)
    else
      if CanGive(env, kids[i-1].tree, t) then AfterMove(env, kids, i - 1, MoveRight(env, kids[i-1].tree, t))
      else Merge(env, kids, i - 1, kids[i-1].tree, t)
  }

  function AfterMove(env: Env, kids: seq<Kid>, j: nat, s: Shift): Removal
    requires env.Valid() && j + 1 < |kids|
  {
    match s
    case NoRoom => Stable(Full)
    case Shifted(l, sep, r) =>
      Stable(UpdateKey(env, kids[j := Kid(kids[j].sep, l)][j + 1 := Kid(kids[j+1].sep, r)], j + 1, sep))
  }

  /** Children `j` and `j + 1` become one page and the parent loses a node. */
  function Merge(env: Env, kids: seq<Kid>, j: nat, l: Tree, r: Tree): Removal
    requires env.Valid() && j + 1 < |kids|
  {
    var m := Joined(l, r);
    if Used(m) > env.PMax() then Stable(Full)
    else Check(Branch(kids[..j] + [Kid(kids[j].sep, m)] + kids[j+2..]))
  }

  function Delete(env: Env, t: Tree, k: Key): Removal
    requires env.Valid()
    decreases t
  {
    match t
    case Leaf(ents) =>
      var i := Pos(Pairs(ents), k);
      if i < |ents| && ents[i].key == k then Check(Leaf(ents[..i] + ents[i+1..])) else Stable(Fits(t))
    case Branch(kids) =>
      if kids == [] then Stable(Full)
      else
        var i := KidIndex(kids, k);
        match Delete(env, kids[i].tree, k)
        case Stable(c) => Stable(AfterChild(env, kids, i, c))
        case Check(t') => Rebalance(env, kids, i, t')
  }

  datatype DelResult = Deleted(db: Db) | NotFound | DelFull

  /** The root page has no neighbours: an empty leaf goes, a branch with a single child gives way to it. */
  function RootAfter(t: Tree, depth: nat): Db {
    if Count(t) == 0 then Empty
    else if t.Branch? && |t.kids| == 1 && depth > 0 then Root(t.kids[0].tree, depth - 1)
    else Root(t, depth)
  }

  function DeleteDb(env: Env, db: Db, k: Key): DelResult
    requires env.Valid()
  {
    if db.Empty? || Get(db.tree, k).None? then NotFound
    else
      match Delete(env, db.tree, k)
      case Check(t) => Deleted(RootAfter(t, db.depth))
      case Stable(Fits(t)) => Deleted(Root(t, db.depth))
      case Stable(Split(l, s, r)) => Deleted(Root(Branch([Kid([], l), Kid(s, r)]), db.depth + 1))
      case Stable(Full) => DelFull
  }

  // ---- What it must do ---------------------------------------------------------------------

  function SeqRemove(ps: seq<Pair>, k: Key): seq<Pair> {
    if ps == [] then [] else if ps[0].key == k then ps[1..] else [ps[0]] + SeqRemove(ps[1..], k)
  }

  /** A page that just lost a node: well-formed except that it may be short of nodes. */
  predicate UnderOK(env: Env, t: Tree, h: nat, lo: Key, hi: Option<Key>)
    requires env.Valid()
  {
    match t
    case Leaf(ents) => h == 0 && LeafOK(env, ents, lo, hi)
    case Branch(kids) => h > 0 && BranchPageOK(env, kids) && KidsOK(env, kids, h - 1, lo, hi)
  }

  predicate RemovalOK(env: Env, r: Removal, h: nat, lo: Key, hi: Option<Key>, ps: seq<Pair>)
    requires env.Valid()
  {
    match r
    case Stable(c) => ChangeOK(env, c, h, lo, hi, ps)
    case Check(t) => UnderOK(env, t, h, lo, hi) && Flatten(t) == ps
  }

  // ---- When a delete is refused --------------------------------------------------------------

  /** A longer separator needs a split that is taken by count and leaves a half over the page. */
  predicate UpdateRefused(env: Env, kids: seq<Kid>, j: nat, sep: Key)
    requires env.Valid() && j < |kids|
  {
    && env.PMax() - BranchUsed(kids) < Even(|sep|) - Even(|kids[j].sep|)
    && CountedOverfull(BranchSizes(kids[j := Kid(sep, kids[j].tree)]), j, false, env.PMax())
  }

  predicate MoveRefused(env: Env, kids: seq<Kid>, j: nat, s: Shift)
    requires env.Valid() && j + 1 < |kids|
  {
    s.Shifted? && UpdateRefused(env, kids, j + 1, s.sep)
  }

  /** Only moving a node from a neighbour can need more room in the parent. */
  predicate RebalanceRefused(env: Env, kids: seq<Kid>, i: nat, t: Tree)
    requires env.Valid() && i < |kids|
  {
    && !Filled(env, t) && |kids| >= 2
    && if i == 0 then CanGive(env, kids[1].tree, t) && MoveRefused(env, kids, 0, MoveLeft(env, t, kids[1].tree))
       else CanGive(env, kids[i-1].tree, t) && MoveRefused(env, kids, i - 1, MoveRight(env, kids[i-1].tree, t))
  }

  /** A branch page above the leaf refuses the separator that rebalancing, or a split below it, gives it. */
  predicate DeleteRefused(env: Env, t: Tree, k: Key)
    requires env.Valid()
    decreases t
  {
    match t
    case Leaf(_) => false
    case Branch(kids) =>
      kids != [] &&
      var i := KidIndex(kids, k);
      DeleteRefused(env, kids[i].tree, k)
      || match Delete(env, kids[i].tree, k)
         case Stable(c) => AfterChildRefused(env, kids, i, c)
         case Check(t') => RebalanceRefused(env, kids, i, t')
  }

  lemma {:induction false} RemoveMiddle(a: seq<Pair>, b: seq<Pair>, c: seq<Pair>, k: Key)
    requires AllBelow(a, k) && AllAbove(c, k)
    ensures SeqRemove(a + b + c, k) == a + SeqRemove(b, k) + c
  {
    LessIrreflexive(k);
    if a != [] {
      assert (a + b + c)[1..] == a[1..] + b + c;
      RemoveMiddle(a[1..], b, c, k);
    } else if b != [] {
      assert (a + b + c)[1..] == a + b[1..] + c;
      if b[0].key != k { RemoveMiddle(a, b[1..], c, k); }
    } else {
      assert a + b + c == c;
      RemoveAbsent(c, k);
    }
  }

  lemma {:induction false} RemoveAbsent(ps: seq<Pair>, k: Key)
    requires forall i :: 0 <= i < |ps| ==> ps[i].key != k
    ensures SeqRemove(ps, k) == ps
  {
    if ps != [] { RemoveAbsent(ps[1..], k); }
  }

  lemma {:induction false} SeqRemoveAt(ps: seq<Pair>, k: Key)
    requires Sorted(ps)
    ensures var p := Pos(ps, k);
            SeqRemove(ps, k) == if p < |ps| && ps[p].key == k then ps[..p] + ps[p+1..] else ps
  {
    LessIrreflexive(k);
    PosSpec(ps, k);
    if ps != [] && Less(ps[0].key, k) {
      SeqRemoveAt(ps[1..], k);
    } else if ps != [] && ps[0].key != k {
      RemoveAbsent(ps, k);
    }
  }

  // ---- Bounds of single pages --------------------------------------------------------------

  lemma LeafWiden(env: Env, ents: seq<Entry>, lo: Key, hi: Option<Key>, lo': Key, hi': Option<Key>)
    requires env.Valid() && LeafOK(env, ents, lo, hi)
    requires AtMost(lo', lo) && (hi'.Some? ==> hi.Some? && AtMost(hi.value, hi'.value))
    ensures LeafOK(env, ents, lo', hi')
  {
    var ps := Pairs(ents);
    forall i | 0 <= i < |ps| ensures InRange(ps[i].key, lo', hi') {
      RangeTransitive(ps[i].key, lo, lo', hi, hi');
    }
  }

  /** The upper bound of a page may be raised. */
  lemma {:induction false} WidenHi(env: Env, t: Tree, h: nat, lo: Key, hi: Key, hi': Key)
    requires env.Valid() && TreeOK(env, t, h, lo, Some(hi)) && AtMost(hi, hi')
    ensures TreeOK(env, t, h, lo, Some(hi'))
    decreases h, 0, 0
  {
    match t
    case Leaf(ents) => LeafWiden(env, ents, lo, Some(hi), lo, Some(hi'));
    case Branch(kids) => KidsWidenHi(env, kids, h - 1, lo, hi, hi');
  }

  lemma {:induction false} KidsWidenHi(env: Env, kids: seq<Kid>, h: nat, lo: Key, hi: Key, hi': Key)
    requires env.Valid() && kids != [] && KidsOK(env, kids, h, lo, Some(hi)) && AtMost(hi, hi')
    ensures KidsOK(env, kids, h, lo, Some(hi'))
    decreases h, 1, |kids|
  {
    if |kids| == 1 {
      WidenHi(env, kids[0].tree, h, lo, hi, hi');
    } else {
      KidsWidenHi(env, kids[1..], h, kids[1].sep, hi, hi');
    }
  }

  /** The lower bound of a page may be raised to its lowest key. */
  lemma {:induction false} NarrowLo(env: Env, t: Tree, h: nat, lo: Key, hi: Option<Key>)
    requires env.Valid() && TreeOK(env, t, h, lo, hi)
    ensures TreeOK(env, t, h, Lowest(t), hi) && AtMost(lo, Lowest(t)) && |Lowest(t)| <= MAXKEYSIZE
    decreases h
  {
    match t
    case Leaf(ents) =>
      assert EntryOK(env, ents[0]);
      var ps := Pairs(ents);
      assert ps[0].key == Lowest(t) && InRange(ps[0].key, lo, hi);
      forall i | 0 <= i < |ps| ensures InRange(ps[i].key, Lowest(t), hi) {
        assert i > 0 ==> Less(ps[0].key, ps[i].key);
      }
    case Branch(kids) =>
      NarrowLo(env, kids[0].tree, h - 1, lo, if |kids| == 1 then hi else Some(kids[1].sep));
  }

  // ---- Joining two neighbours --------------------------------------------------------------

  lemma JoinedLeaves(env: Env, l: seq<Entry>, r: seq<Entry>, lo: Key, mid: Key, hi: Option<Key>)
    requires env.Valid() && LeafOK(env, l, lo, Some(mid)) && LeafOK(env, r, mid, hi)
    requires l != [] || r != []
    requires AtMost(lo, mid) && (hi.Some? ==> AtMost(mid, hi.value))
    ensures EntriesOK(env, l + r) && Sorted(Pairs(l + r)) && AllInRange(Pairs(l + r), lo, hi)
    ensures Pairs(l + r) == Pairs(l) + Pairs(r)
    ensures LeafSizes(l + r) == LeafSizes(l) + LeafSizes(r) && LeafUsed(l + r) == LeafUsed(l) + LeafUsed(r)
  {
    assert Pairs(l + r) == Pairs(l) + Pairs(r);
    assert LeafSizes(l + r) == LeafSizes(l) + LeafSizes(r);
    SumAppend(LeafSizes(l), LeafSizes(r));
    if l == [] {
      LeafWiden(env, r, mid, hi, lo, hi);
      assert l + r == r;
    } else if r == [] {
      LeafWiden(env, l, lo, Some(mid), lo, hi);
      assert l + r == l;
    } else {
      Join(Pairs(l), Pairs(r), lo, mid, hi);
    }
  }

  lemma JoinedSizes(l: seq<Kid>, r: seq<Kid>, low: Key)
    requires r != [] && r[0].sep == []
    ensures var all := l + ([Kid(low, r[0].tree)] + r[1..]);
            && BranchSizes(all) == BranchSizes(l) + ([BranchSize(low)] + BranchSizes(r)[1..])
            && BranchUsed(all) == BranchUsed(l) + BranchSize(low) + BranchUsed(r) - 10
  {
    var tail := BranchSizes(r)[1..];
    var xs := [BranchSize(low)] + tail;
    assert xs[1..] == tail;
    assert BranchSizes(l + ([Kid(low, r[0].tree)] + r[1..])) == BranchSizes(l) + xs;
    SumAppend(BranchSizes(l), xs);
  }

  lemma JoinedBranches(env: Env, l: seq<Kid>, r: seq<Kid>, h: nat, lo: Key, mid: Key, hi: Option<Key>)
    requires env.Valid() && BranchPageOK(env, l) && BranchPageOK(env, r)
    requires KidsOK(env, l, h, lo, Some(mid)) && KidsOK(env, r, h, mid, hi)
    ensures var low := Lowest(r[0].tree);
            var all := l + ([Kid(low, r[0].tree)] + r[1..]);
            && KidsOK(env, all, h, lo, hi) && SepsOK(all) && all[0].sep == [] && |low| <= MAXKEYSIZE
            && FlattenKids(all) == FlattenKids(l) + FlattenKids(r)
  {
    var low := Lowest(r[0].tree);
    var r' := [Kid(low, r[0].tree)] + r[1..];
    NarrowFirst(env, r, h, mid, hi);
    KidsWidenHi(env, l, h, lo, mid, low);
    KidsAppend(env, l, r', h, lo, hi);
    FlattenAppend(l, r');
    SlotZeroFree(env, r, low, h, mid, hi);
  }

  lemma NarrowFirst(env: Env, r: seq<Kid>, h: nat, lo: Key, hi: Option<Key>)
    requires env.Valid() && r != [] && KidsOK(env, r, h, lo, hi)
    ensures var low := Lowest(r[0].tree);
            AtMost(lo, low) && |low| <= MAXKEYSIZE && KidsOK(env, [Kid(low, r[0].tree)] + r[1..], h, low, hi)
  {
    var low := Lowest(r[0].tree);
    assert ([Kid(low, r[0].tree)] + r[1..])[1..] == r[1..];
    NarrowLo(env, r[0].tree, h, lo, if |r| == 1 then hi else Some(r[1].sep));
  }

  // ---- The fill test -----------------------------------------------------------------------

  lemma Scale(m: nat, n: nat, b: nat)
    requires m <= n
    ensures m * b <= n * b
  {
  }

  lemma QuotientBelow(a: nat, b: nat, q: nat)
    requires b > 0 && Quotient(a, b) < q
    ensures a < q * b
  {
    var r := Quotient(a, b);
    assert r == a / b && a == r * b + a % b;
    Scale(r + 1, q, b);
  }

  /** A page that fails the fill test is nearly empty: a leaf under a quarter, a branch under 33 bytes. */
  lemma FailsFill(env: Env, t: Tree, h: nat, lo: Key, hi: Option<Key>)
    requires env.Valid() && UnderOK(env, t, h, lo, hi)
    requires !Filled(env, t)
    ensures if t.Leaf? then 4 * Used(t) < env.PMax() else Used(t) < 33
  {
    if PageFill(env, t) < Threshold(t) {
      QuotientBelow(1000 * Used(t), env.PMax(), Threshold(t));
    } else if t.Leaf? {
      assert LeafSizes(t.ents) == [];
    } else {
      assert BranchSizes(t.kids) == [10] && BranchSizes(t.kids)[1..] == [];
      assert Sum(BranchSizes(t.kids)[1..]) == 0;
    }
  }

  /** A neighbour that cannot give a node is small enough to be merged with. */
  lemma CannotGive(env: Env, t: Tree, h: nat, lo: Key, hi: Option<Key>, like: Tree)
    requires env.Valid() && TreeOK(env, t, h, lo, hi) && like.Leaf? == t.Leaf? && !CanGive(env, t, like)
    ensures if t.Leaf? then 2 * Used(t) <= env.PMax() else Used(t) <= 532
  {
    if PageFill(env, t) < Threshold(t) {
      QuotientBelow(1000 * Used(t), env.PMax(), Threshold(t));
    } else if t.Leaf? {
      EntryBounds(env, t.ents[0]);
      InsertedSizes(env, [], 0, t.ents[0]);
      assert [] + [t.ents[0]] + [] == t.ents;
      assert LeafSizes([]) == [];
    } else {
      var xs := BranchSizes(t.kids);
      assert xs[1..] == [xs[1]] && xs[1..][1..] == [];
      assert Sum(xs[1..]) == xs[1] && |t.kids[1].sep| <= MAXKEYSIZE;
    }
  }

  // ---- Merge and move ----------------------------------------------------------------------

  /** The fill test only merges pages that fit into one. */
  lemma MergeFits(env: Env, l: Tree, r: Tree, h: nat, lo: Key, mid: Key, hi: Option<Key>)
    requires env.Valid() && UnderOK(env, l, h, lo, Some(mid)) && UnderOK(env, r, h, mid, hi)
    requires AtMost(lo, mid) && (hi.Some? ==> AtMost(mid, hi.value)) && Count(l) + Count(r) > 0
    requires h == 0 ==> 4 * (Used(l) + Used(r)) <= 3 * env.PMax()
    requires h > 0 ==> Used(l) + Used(r) <= 565
    ensures var m := Joined(l, r);
            Used(m) <= env.PMax() && TreeOK(env, m, h, lo, hi) && Flatten(m) == Flatten(l) + Flatten(r)
  {
    if h == 0 {
      JoinedLeaves(env, l.ents, r.ents, lo, mid, hi);
    } else {
      JoinedBranches(env, l.kids, r.kids, h - 1, lo, mid, hi);
      JoinedSizes(l.kids, r.kids, Lowest(r.kids[0].tree));
    }
  }

  predicate ShiftOK(env: Env, s: Shift, h: nat, lo: Key, hi: Option<Key>, ps: seq<Pair>)
    requires env.Valid()
  {
    && s.Shifted? && TreeOK(env, s.left, h, lo, Some(s.sep)) && TreeOK(env, s.right, h, s.sep, hi)
    && Flatten(s.left) + Flatten(s.right) == ps && |s.sep| <= MAXKEYSIZE
  }

  lemma MoveLeftLeafSizes(l: seq<Entry>, r: seq<Entry>)
    requires r != []
    ensures var xs := LeafSizes(l + r); var s := |l| + 1;
            && Sum(xs[..s]) == LeafUsed(l + [r[0]]) == LeafUsed(l) + LeafSize(r[0])
            && Sum(xs[s..]) <= LeafUsed(r)
  {
    var xs := LeafSizes(l + r);
    var s := |l| + 1;
    assert xs[..s] == LeafSizes(l) + [LeafSize(r[0])] == LeafSizes(l + [r[0]]);
    SumSnoc(LeafSizes(l), LeafSize(r[0]));
    SumSplit(LeafSizes(r), 1);
    assert xs[s..] == LeafSizes(r)[1..];
  }

  lemma MoveLeftLeafOK(env: Env, l: seq<Entry>, r: seq<Entry>, lo: Key, mid: Key, hi: Option<Key>)
    requires env.Valid() && LeafOK(env, l, lo, Some(mid)) && LeafOK(env, r, mid, hi) && |r| > 1
    requires AtMost(lo, mid) && (hi.Some? ==> AtMost(mid, hi.value)) && 4 * LeafUsed(l) < env.PMax()
    ensures ShiftOK(env, MoveLeft(env, Leaf(l), Leaf(r)), 0, lo, hi, Pairs(l) + Pairs(r))
  {
    JoinedLeaves(env, l, r, lo, mid, hi);
    var s := |l| + 1;
    assert (l + r)[..s] == l + [r[0]] && (l + r)[s..] == r[1..];
    EntryBounds(env, r[0]);
    MoveLeftLeafSizes(l, r);
    assert EntryOK(env, r[1]);
    SlicedLeaf(env, l + r, s, lo, hi);
  }

  lemma MoveRightLeafSizes(l: seq<Entry>, r: seq<Entry>)
    requires l != []
    ensures var xs := LeafSizes(l + r); var s := |l| - 1;
            && Sum(xs[s..]) == LeafUsed([l[s]] + r) == LeafSize(l[s]) + LeafUsed(r)
            && Sum(xs[..s]) <= LeafUsed(l)
  {
    var xs := LeafSizes(l + r);
    var s := |l| - 1;
    assert xs[s..] == [LeafSize(l[s])] + LeafSizes(r) == LeafSizes([l[s]] + r);
    assert xs[s..][1..] == LeafSizes(r);
    SumSplit(LeafSizes(l), s);
    assert xs[..s] == LeafSizes(l)[..s];
  }

  lemma MoveRightLeafOK(env: Env, l: seq<Entry>, r: seq<Entry>, lo: Key, mid: Key, hi: Option<Key>)
    requires env.Valid() && LeafOK(env, l, lo, Some(mid)) && LeafOK(env, r, mid, hi) && |l| > 1
    requires AtMost(lo, mid) && (hi.Some? ==> AtMost(mid, hi.value)) && 4 * LeafUsed(r) < env.PMax()
    ensures ShiftOK(env, MoveRight(env, Leaf(l), Leaf(r)), 0, lo, hi, Pairs(l) + Pairs(r))
  {
    JoinedLeaves(env, l, r, lo, mid, hi);
    var s := |l| - 1;
    assert (l + r)[..s] == l[..s] && (l + r)[s..] == [l[s]] + r;
    assert EntryOK(env, l[s]);
    EntryBounds(env, l[s]);
    MoveRightLeafSizes(l, r);
    SlicedLeaf(env, l + r, s, lo, hi);
  }

  lemma MoveLeftBranchSizes(l: seq<Kid>, r: seq<Kid>, low: Key)
    requires |r| >= 2
    ensures var xs := BranchSizes(l + ([Kid(low, r[0].tree)] + r[1..])); var s := |l| + 1;
            && Sum(xs[..s]) == BranchUsed(l + [Kid(low, r[0].tree)]) == BranchUsed(l) + BranchSize(low)
            && RightUsed(xs, s, false) <= BranchUsed(r)
  {
    var moved := Kid(low, r[0].tree);
    var s := |l| + 1;
    var xs := BranchSizes(l + ([moved] + r[1..]));
    assert xs[..s] == BranchSizes(l) + [BranchSize(low)] == BranchSizes(l + [moved]);
    SumSnoc(BranchSizes(l), BranchSize(low));
    assert xs[s+1..] == BranchSizes(r)[2..];
    SumSplit(BranchSizes(r), 2);
    SumAtLeast(BranchSizes(r)[..2], 10);
  }

  lemma MovedSlices<T>(l: seq<T>, moved: T, r: seq<T>)
    requires |r| >= 2
    ensures var all := l + ([moved] + r[1..]); var s := |l| + 1;
            |all| == |l| + |r| && all[..s] == l + [moved] && all[s] == r[1] && all[s+1..] == r[2..]
  {
  }

  lemma MoveLeftBranchOK(env: Env, l: seq<Kid>, r: seq<Kid>, h: nat, lo: Key, mid: Key, hi: Option<Key>)
    requires env.Valid() && BranchPageOK(env, l) && BranchPageOK(env, r) && |r| > 2 && BranchUsed(l) < 33
    requires KidsOK(env, l, h, lo, Some(mid)) && KidsOK(env, r, h, mid, hi)
    ensures ShiftOK(env, MoveLeft(env, Branch(l), Branch(r)), h + 1, lo, hi, FlattenKids(l) + FlattenKids(r))
  {
    hide Sum, KidsOK, FlattenKids, Lowest, BranchSizes;
    JoinedBranches(env, l, r, h, lo, mid, hi);
    var low := Lowest(r[0].tree);
    var all := l + ([Kid(low, r[0].tree)] + r[1..]);
    var s := |l| + 1;
    MovedSlices(l, Kid(low, r[0].tree), r);
    MoveLeftBranchSizes(l, r, low);
    SlicedBranch(env, all, s, h, lo, hi);
  }

  lemma MoveRightBranchSizes(l: seq<Kid>, r: seq<Kid>, low: Key)
    requires l != [] && r != [] && r[0].sep == []
    ensures var rest := [Kid(low, r[0].tree)] + r[1..];
            var xs := BranchSizes(l + rest); var s := |l| - 1;
            && RightUsed(xs, s, false) == BranchSize(low) + BranchUsed(r)
            && BranchUsed([l[s]] + rest) == BranchSize(l[s].sep) + BranchSize(low) + BranchUsed(r) - 10
            && Sum(xs[..s]) <= BranchUsed(l)
  {
    hide Sum;
    var rest := [Kid(low, r[0].tree)] + r[1..];
    var s := |l| - 1;
    var xs := BranchSizes(l + rest);
    assert BranchSizes([]) == [];
    JoinedSizes([], r, low);
    assert [] + rest == rest;
    JoinedSizes([l[s]], r, low);
    assert xs[s+1..] == BranchSizes(rest);
    assert BranchSizes([l[s]]) == [BranchSize(l[s].sep)];
    SumOne(BranchSize(l[s].sep));
    SumSplit(BranchSizes(l), s);
    assert xs[..s] == BranchSizes(l)[..s];
  }

  lemma MoveRightBranchOK(env: Env, l: seq<Kid>, r: seq<Kid>, h: nat, lo: Key, mid: Key, hi: Option<Key>)
    requires env.Valid() && BranchPageOK(env, l) && BranchPageOK(env, r) && |l| > 2 && BranchUsed(r) < 33
    requires KidsOK(env, l, h, lo, Some(mid)) && KidsOK(env, r, h, mid, hi)
    ensures ShiftOK(env, MoveRight(env, Branch(l), Branch(r)), h + 1, lo, hi, FlattenKids(l) + FlattenKids(r))
  {
    hide Sum, KidsOK, FlattenKids, Lowest, BranchSizes;
    JoinedBranches(env, l, r, h, lo, mid, hi);
    var low := Lowest(r[0].tree);
    var rest := [Kid(low, r[0].tree)] + r[1..];
    var all := l + rest;
    var s := |l| - 1;
    assert all[..s] == l[..s] && all[s] == l[s] && all[s+1..] == rest;
    MoveRightBranchSizes(l, r, low);
    SlicedBranch(env, all, s, h, lo, hi);
  }

  // ---- Updating the parent -----------------------------------------------------------------

  lemma UpdateKeyOK(env: Env, kids: seq<Kid>, j: nat, sep: Key, h: nat, lo: Key, hi: Option<Key>)
    requires env.Valid() && 1 <= j < |kids| && BranchPageOK(env, kids) && |sep| <= MAXKEYSIZE
    requires KidsOK(env, kids[j := Kid(sep, kids[j].tree)], h, lo, hi)
    ensures var c := UpdateKey(env, kids, j, sep);
            ChangeOK(env, c, h + 1, lo, hi, FlattenKids(kids[j := Kid(sep, kids[j].tree)]))
            && (c.Full? <==> UpdateRefused(env, kids, j, sep))
  {
    hide Sum, KidsOK, FlattenKids, SplitBranch, CountedOverfull;
    var all := kids[j := Kid(sep, kids[j].tree)];
    var prior := kids[..j] + kids[j+1..];
    assert prior[..j] + [kids[j]] + prior[j..] == kids;
    assert prior[..j] + [all[j]] + prior[j..] == all;
    InsertedKidSizes(prior, j, kids[j]);
    InsertedKidSizes(prior, j, all[j]);
    if Even(|sep|) > Even(|kids[j].sep|) && env.PMax() - BranchUsed(kids) < Even(|sep|) - Even(|kids[j].sep|) {
      SplitBranchOK(env, prior, j, all[j], h, lo, hi);
    }
  }

  /** Bounds of two neighbouring children, and the separators around them in order. */
  lemma Pair2(env: Env, kids: seq<Kid>, j: nat, h: nat, lo: Key, hi: Option<Key>)
    requires env.Valid() && j + 1 < |kids| && KidsOK(env, kids, h, lo, hi)
    ensures var lo', hi' := LoOf(kids[..j], [kids[j]], lo), HiOf(kids[j+2..], hi);
            var mid := kids[j+1].sep;
            && TreeOK(env, kids[j].tree, h, lo', Some(mid)) && TreeOK(env, kids[j+1].tree, h, mid, hi')
            && AtMost(lo', mid) && (hi'.Some? ==> AtMost(mid, hi'.value))
            && FlattenKids(kids) == FlattenKids(kids[..j]) + (Flatten(kids[j].tree) + Flatten(kids[j+1].tree)) + FlattenKids(kids[j+2..])
  {
    var a, m, z := kids[..j], [kids[j], kids[j+1]], kids[j+2..];
    assert kids == a + m + z;
    Middle(env, a, m, z, h, lo, hi);
    var lo', hi' := LoOf(a, [kids[j]], lo), HiOf(z, hi);
    TwoKids(env, kids[j], kids[j+1], h, lo', hi');
    TreeContents(env, kids[j].tree, h, lo', Some(m[1].sep));
    TreeContents(env, kids[j+1].tree, h, m[1].sep, hi');
    var k := Flatten(kids[j].tree)[0].key;
    if lo' != k { LessTransitive(lo', k, m[1].sep); }
    var k' := Flatten(kids[j+1].tree)[0].key;
    if hi'.Some? && m[1].sep != k' { LessTransitive(m[1].sep, k', hi'.value); }
  }

  /** Exchange two neighbouring children for the run `m` that carries the first one's separator. */
  lemma Exchange2(env: Env, kids: seq<Kid>, j: nat, m: seq<Kid>, h: nat, lo: Key, hi: Option<Key>)
    requires env.Valid() && j + 1 < |kids| && KidsOK(env, kids, h, lo, hi)
    requires m != [] && m[0].sep == kids[j].sep
    requires KidsOK(env, m, h, LoOf(kids[..j], [kids[j]], lo), HiOf(kids[j+2..], hi))
    ensures KidsOK(env, kids[..j] + m + kids[j+2..], h, lo, hi)
    ensures FlattenKids(kids[..j] + m + kids[j+2..]) == FlattenKids(kids[..j]) + FlattenKids(m) + FlattenKids(kids[j+2..])
  {
    assert kids == kids[..j] + [kids[j], kids[j+1]] + kids[j+2..];
    Middle(env, kids[..j], [kids[j], kids[j+1]], kids[j+2..], h, lo, hi);
    Middle(env, kids[..j], m, kids[j+2..], h, lo, hi);
  }

  lemma AfterMoveOK(env: Env, kids: seq<Kid>, j: nat, s: Shift, h: nat, lo: Key, hi: Option<Key>, ps: seq<Pair>)
    requires env.Valid() && j + 1 < |kids| && BranchPageOK(env, kids) && KidsOK(env, kids, h, lo, hi)
    requires ShiftOK(env, s, h, LoOf(kids[..j], [kids[j]], lo), HiOf(kids[j+2..], hi), ps)
    ensures var r := AfterMove(env, kids, j, s);
            RemovalOK(env, r, h + 1, lo, hi, FlattenKids(kids[..j]) + ps + FlattenKids(kids[j+2..]))
            && (r == Stable(Full) <==> MoveRefused(env, kids, j, s))
  {
    hide KidsOK, TreeOK, FlattenKids, UpdateKey, BranchPageOK, UpdateRefused;
    var m := [Kid(kids[j].sep, s.left), Kid(s.sep, s.right)];
    TwoKids(env, m[0], m[1], h, LoOf(kids[..j], [kids[j]], lo), HiOf(kids[j+2..], hi));
    Exchange2(env, kids, j, m, h, lo, hi);
    var kids1 := kids[j := Kid(kids[j].sep, s.left)];
    SamePage(env, kids, j, s.left);
    SamePage(env, kids1, j + 1, s.right);
    var kids2 := kids1[j + 1 := Kid(kids[j+1].sep, s.right)];
    assert kids2[j + 1 := Kid(s.sep, s.right)] == kids[..j] + m + kids[j+2..];
    UpdateKeyOK(env, kids2, j + 1, s.sep, h, lo, hi);
    SameRefusal(env, kids, kids2, j + 1, s.sep);
  }

  lemma SameRefusal(env: Env, kids: seq<Kid>, kids2: seq<Kid>, j: nat, sep: Key)
    requires env.Valid() && j < |kids| == |kids2| && forall i :: 0 <= i < |kids| ==> kids[i].sep == kids2[i].sep
    ensures UpdateRefused(env, kids, j, sep) == UpdateRefused(env, kids2, j, sep)
  {
    hide Sum, CountedOverfull;
    assert BranchSizes(kids) == BranchSizes(kids2);
    assert BranchSizes(kids[j := Kid(sep, kids[j].tree)]) == BranchSizes(kids2[j := Kid(sep, kids2[j].tree)]);
  }

  lemma MergedPage(env: Env, kids: seq<Kid>, j: nat, t: Tree)
    requires env.Valid() && j + 1 < |kids| && BranchPageOK(env, kids)
    ensures BranchPageOK(env, kids[..j] + [Kid(kids[j].sep, t)] + kids[j+2..])
  {
    hide KidsOK, TreeOK, Sum;
    var all := kids[..j] + [Kid(kids[j].sep, t)] + kids[j+2..];
    var prior := kids[..j+1] + kids[j+2..];
    assert prior[..j+1] + [kids[j+1]] + prior[j+1..] == kids;
    InsertedKidSizes(prior, j + 1, kids[j+1]);
    assert BranchSizes(prior) == BranchSizes(all);
    assert forall i :: 0 <= i < |all| ==> |all[i].sep| <= MAXKEYSIZE;
  }

  lemma MergedKids(env: Env, kids: seq<Kid>, j: nat, t: Tree, h: nat, lo: Key, hi: Option<Key>)
    requires env.Valid() && j + 1 < |kids| && KidsOK(env, kids, h, lo, hi)
    requires TreeOK(env, t, h, LoOf(kids[..j], [kids[j]], lo), HiOf(kids[j+2..], hi))
    ensures var all := kids[..j] + [Kid(kids[j].sep, t)] + kids[j+2..];
            KidsOK(env, all, h, lo, hi)
            && FlattenKids(all) == FlattenKids(kids[..j]) + Flatten(t) + FlattenKids(kids[j+2..])
  {
    hide TreeOK, FlattenKids;
    var k := Kid(kids[j].sep, t);
    Exchange2(env, kids, j, [k], h, lo, hi);
    FlattenKidsOne(k);
  }

  lemma MergedOK(env: Env, kids: seq<Kid>, j: nat, t: Tree, h: nat, lo: Key, hi: Option<Key>)
    requires env.Valid() && j + 1 < |kids| && BranchPageOK(env, kids) && KidsOK(env, kids, h, lo, hi)
    requires TreeOK(env, t, h, LoOf(kids[..j], [kids[j]], lo), HiOf(kids[j+2..], hi))
    ensures var all := kids[..j] + [Kid(kids[j].sep, t)] + kids[j+2..];
            UnderOK(env, Branch(all), h + 1, lo, hi)
            && FlattenKids(all) == FlattenKids(kids[..j]) + Flatten(t) + FlattenKids(kids[j+2..])
  {
    MergedKids(env, kids, j, t, h, lo, hi);
    MergedPage(env, kids, j, t);
  }

  // ---- Rebalance ---------------------------------------------------------------------------

  lemma TreeIsUnder(env: Env, t: Tree, h: nat, lo: Key, hi: Option<Key>)
    requires env.Valid() && TreeOK(env, t, h, lo, hi)
    ensures UnderOK(env, t, h, lo, hi) && Count(t) > 0 && t.Leaf? == (h == 0)
  {
  }

  lemma UnderHeight(env: Env, t: Tree, h: nat, lo: Key, hi: Option<Key>)
    requires env.Valid() && UnderOK(env, t, h, lo, hi)
    ensures t.Leaf? == (h == 0)
  {
  }

  lemma {:induction false} KidKinds(env: Env, kids: seq<Kid>, h: nat, lo: Key, hi: Option<Key>, i: nat)
    requires env.Valid() && kids != [] && KidsOK(env, kids, h, lo, hi) && i < |kids|
    ensures if h == 0 then kids[i].tree.Leaf? else kids[i].tree.Branch? && kids[i].tree.kids != []
    decreases |kids|
  {
    if i > 0 { KidKinds(env, kids[1..], h, kids[1].sep, hi, i - 1); }
  }

  lemma UnderKind(env: Env, t: Tree, h: nat, lo: Key, hi: Option<Key>)
    requires env.Valid() && UnderOK(env, t, h, lo, hi)
    ensures if h == 0 then t.Leaf? else t.Branch? && t.kids != []
  {
  }

  /** What mdb_rebalance gets: a child that fails the fill test next to a well-formed neighbour. */
  lemma MoveOK(env: Env, l: Tree, r: Tree, toLeft: bool, h: nat, lo: Key, mid: Key, hi: Option<Key>)
    requires env.Valid() && UnderOK(env, l, h, lo, Some(mid)) && UnderOK(env, r, h, mid, hi)
    requires AtMost(lo, mid) && (hi.Some? ==> AtMost(mid, hi.value))
    requires var t, nb := if toLeft then l else r, if toLeft then r else l;
             !Filled(env, t) && CanGive(env, nb, t)
    ensures ShiftOK(env, if toLeft then MoveLeft(env, l, r) else MoveRight(env, l, r), h, lo, hi, Flatten(l) + Flatten(r))
  {
    if toLeft {
      FailsFill(env, l, h, lo, Some(mid));
      if h == 0 { MoveLeftLeafOK(env, l.ents, r.ents, lo, mid, hi); }
      else { MoveLeftBranchOK(env, l.kids, r.kids, h - 1, lo, mid, hi); }
    } else {
      FailsFill(env, r, h, mid, hi);
      if h == 0 { MoveRightLeafOK(env, l.ents, r.ents, lo, mid, hi); }
      else { MoveRightBranchOK(env, l.kids, r.kids, h - 1, lo, mid, hi); }
    }
  }

  lemma MergeOK(env: Env, kids: seq<Kid>, j: nat, l: Tree, r: Tree, h: nat, lo: Key, hi: Option<Key>)
    requires env.Valid() && j + 1 < |kids| && BranchPageOK(env, kids) && KidsOK(env, kids, h, lo, hi)
    requires var lo', hi', mid := LoOf(kids[..j], [kids[j]], lo), HiOf(kids[j+2..], hi), kids[j+1].sep;
             UnderOK(env, l, h, lo', Some(mid)) && UnderOK(env, r, h, mid, hi') && Count(l) + Count(r) > 0
    requires h == 0 ==> 4 * (Used(l) + Used(r)) <= 3 * env.PMax()
    requires h > 0 ==> Used(l) + Used(r) <= 565
    ensures var res := Merge(env, kids, j, l, r);
            res.Check? && RemovalOK(env, res, h + 1, lo, hi, FlattenKids(kids[..j]) + (Flatten(l) + Flatten(r)) + FlattenKids(kids[j+2..]))
  {
    hide KidsOK, TreeOK, BranchPageOK, FlattenKids, Used, Joined, LoOf, HiOf, Count;
    Pair2(env, kids, j, h, lo, hi);
    MergeFits(env, l, r, h, LoOf(kids[..j], [kids[j]], lo), kids[j+1].sep, HiOf(kids[j+2..], hi));
    MergedOK(env, kids, j, Joined(l, r), h, lo, hi);
  }

  lemma Regroup<T>(a: seq<T>, b: seq<T>, c: seq<T>, d: seq<T>)
    ensures a + b + c + d == a + (b + c) + d
    ensures a == [] ==> a + (b + c) + d == b + (c + d)
  {
  }

  lemma FlattenHead(kids: seq<Kid>)
    requires |kids| >= 2
    ensures FlattenKids(kids[..0]) == [] && FlattenKids(kids[1..]) == Flatten(kids[1].tree) + FlattenKids(kids[2..])
  {
    assert kids[1..][1..] == kids[2..];
  }

  lemma FlattenLast(kids: seq<Kid>, i: nat)
    requires 1 <= i <= |kids|
    ensures FlattenKids(kids[..i]) == FlattenKids(kids[..i-1]) + Flatten(kids[i-1].tree)
  {
    assert kids[..i] == kids[..i-1] + [kids[i-1]];
    FlattenAppend(kids[..i-1], [kids[i-1]]);
    FlattenKidsOne(kids[i-1]);
  }

  lemma RebalanceFirst(env: Env, kids: seq<Kid>, t: Tree, h: nat, lo: Key, hi: Option<Key>)
    requires env.Valid() && |kids| >= 2 && BranchPageOK(env, kids) && KidsOK(env, kids, h, lo, hi)
    requires UnderOK(env, t, h, lo, Some(kids[1].sep)) && !Filled(env, t)
    ensures var r := Rebalance(env, kids, 0, t);
            RemovalOK(env, r, h + 1, lo, hi, Flatten(t) + FlattenKids(kids[1..]))
            && (r == Stable(Full) <==> RebalanceRefused(env, kids, 0, t))
  {
    hide KidsOK, TreeOK, BranchPageOK, ChangeOK, RemovalOK, FlattenKids, Flatten, Filled, CanGive, Used, PageFill,
         AfterMove, Merge, MoveLeft, MoveRefused;
    var nb := kids[1].tree;
    Pair2(env, kids, 0, h, lo, hi);
    FlattenHead(kids);
    Regroup([], Flatten(t), Flatten(nb), FlattenKids(kids[2..]));
    var hi' := HiOf(kids[2..], hi);
    TreeIsUnder(env, nb, h, kids[1].sep, hi');
    UnderHeight(env, t, h, lo, Some(kids[1].sep));
    if CanGive(env, nb, t) {
      MoveOK(env, t, nb, true, h, lo, kids[1].sep, hi');
      AfterMoveOK(env, kids, 0, MoveLeft(env, t, nb), h, lo, hi, Flatten(t) + Flatten(nb));
    } else {
      FailsFill(env, t, h, lo, Some(kids[1].sep));
      CannotGive(env, nb, h, kids[1].sep, hi', t);
      MergeOK(env, kids, 0, t, nb, h, lo, hi);
    }
  }

  lemma RebalanceOther(env: Env, kids: seq<Kid>, i: nat, t: Tree, h: nat, lo: Key, hi: Option<Key>)
    requires env.Valid() && 1 <= i < |kids| && BranchPageOK(env, kids) && KidsOK(env, kids, h, lo, hi)
    requires UnderOK(env, t, h, kids[i].sep, HiOf(kids[i+1..], hi)) && !Filled(env, t)
    ensures var r := Rebalance(env, kids, i, t);
            RemovalOK(env, r, h + 1, lo, hi, FlattenKids(kids[..i]) + Flatten(t) + FlattenKids(kids[i+1..]))
            && (r == Stable(Full) <==> RebalanceRefused(env, kids, i, t))
  {
    hide KidsOK, TreeOK, BranchPageOK, ChangeOK, RemovalOK, FlattenKids, Flatten, Filled, CanGive, Used, PageFill,
         AfterMove, Merge, MoveRight, MoveRefused;
    var j := i - 1;
    var nb := kids[j].tree;
    Pair2(env, kids, j, h, lo, hi);
    FlattenLast(kids, i);
    Regroup(FlattenKids(kids[..j]), Flatten(nb), Flatten(t), FlattenKids(kids[i+1..]));
    var lo', hi' := LoOf(kids[..j], [kids[j]], lo), HiOf(kids[i+1..], hi);
    TreeIsUnder(env, nb, h, lo', Some(kids[i].sep));
    UnderHeight(env, t, h, kids[i].sep, hi');
    if CanGive(env, nb, t) {
      MoveOK(env, nb, t, false, h, lo', kids[i].sep, hi');
      AfterMoveOK(env, kids, j, MoveRight(env, nb, t), h, lo, hi, Flatten(nb) + Flatten(t));
    } else {
      FailsFill(env, t, h, kids[i].sep, hi');
      CannotGive(env, nb, h, lo', Some(kids[i].sep), t);
      MergeOK(env, kids, j, nb, t, h, lo, hi);
    }
  }

  lemma FilledOK(env: Env, kids: seq<Kid>, i: nat, t: Tree, h: nat, lo: Key, hi: Option<Key>)
    requires env.Valid() && i < |kids| && |kids| >= 2 && BranchPageOK(env, kids) && KidsOK(env, kids, h, lo, hi)
    requires UnderOK(env, t, h, LoOf(kids[..i], [kids[i]], lo), HiOf(kids[i+1..], hi)) && Filled(env, t)
    ensures ChangeOK(env, Fits(Branch(kids[i := Kid(kids[i].sep, t)])), h + 1, lo, hi,
                     FlattenKids(kids[..i]) + Flatten(t) + FlattenKids(kids[i+1..]))
  {
    hide KidsOK, FlattenKids, BranchPageOK;
    NewChildOK(env, kids, i, t, h, lo, hi);
  }

  lemma RebalanceOK(env: Env, kids: seq<Kid>, i: nat, t: Tree, h: nat, lo: Key, hi: Option<Key>)
    requires env.Valid() && i < |kids| && |kids| >= 2 && BranchPageOK(env, kids) && KidsOK(env, kids, h, lo, hi)
    requires UnderOK(env, t, h, LoOf(kids[..i], [kids[i]], lo), HiOf(kids[i+1..], hi))
    ensures var r := Rebalance(env, kids, i, t);
            RemovalOK(env, r, h + 1, lo, hi, FlattenKids(kids[..i]) + Flatten(t) + FlattenKids(kids[i+1..]))
            && (r == Stable(Full) <==> RebalanceRefused(env, kids, i, t))
  {
    hide KidsOK, TreeOK, BranchPageOK, ChangeOK, UnderOK, Flatten, FlattenKids, Filled, CanGive, AfterMove, Merge,
         MoveLeft, MoveRight, MoveRefused;
    if Filled(env, t) {
      FilledOK(env, kids, i, t, h, lo, hi);
    } else if i == 0 {
      FlattenHead(kids);
      assert FlattenKids(kids[..i]) + Flatten(t) == Flatten(t);
      RebalanceFirst(env, kids, t, h, lo, hi);
    } else {
      RebalanceOther(env, kids, i, t, h, lo, hi);
    }
  }

  // ---- Delete ------------------------------------------------------------------------------

  lemma LeafRemoved(env: Env, ents: seq<Entry>, i: nat, lo: Key, hi: Option<Key>)
    requires env.Valid() && LeafOK(env, ents, lo, hi) && i < |ents|
    ensures LeafOK(env, ents[..i] + ents[i+1..], lo, hi)
    ensures Pairs(ents[..i] + ents[i+1..]) == Pairs(ents)[..i] + Pairs(ents)[i+1..]
  {
    hide Sum, Even;
    var rest := ents[..i] + ents[i+1..];
    RemovedSizes(ents, i);
    RunRemoved(Pairs(ents), i, lo, hi);
    assert Pairs(rest) == Pairs(ents)[..i] + Pairs(ents)[i+1..];
  }

  lemma RunRemoved(ps: seq<Pair>, i: nat, lo: Key, hi: Option<Key>)
    requires i < |ps| && Sorted(ps) && AllInRange(ps, lo, hi)
    ensures Sorted(ps[..i] + ps[i+1..]) && AllInRange(ps[..i] + ps[i+1..], lo, hi)
  {
  }

  lemma LeafDeleteOK(env: Env, ents: seq<Entry>, lo: Key, hi: Option<Key>, k: Key)
    requires env.Valid() && ents != [] && LeafOK(env, ents, lo, hi)
    ensures var r := Delete(env, Leaf(ents), k);
            RemovalOK(env, r, 0, lo, hi, SeqRemove(Pairs(ents), k)) && r != Stable(Full)
  {
    hide Sum, Pos, SeqRemove, Sorted, AllInRange;
    var ps := Pairs(ents);
    var i := Pos(ps, k);
    SeqRemoveAt(ps, k);
    if i < |ents| && ents[i].key == k {
      LeafRemoved(env, ents, i, lo, hi);
    }
  }

  lemma {:induction false} DeleteOK(env: Env, t: Tree, h: nat, lo: Key, hi: Option<Key>, k: Key)
    requires env.Valid() && TreeOK(env, t, h, lo, hi) && InRange(k, lo, hi)
    ensures RemovalOK(env, Delete(env, t, k), h, lo, hi, SeqRemove(Flatten(t), k))
    ensures Delete(env, t, k) == Stable(Full) <==> DeleteRefused(env, t, k)
    decreases h
  {
    hide KidsOK, BranchPageOK, LeafOK, UnderOK, ChangeOK, Rebalance, AfterChild, SeqRemove, AllBelow, AllAbove,
         RebalanceRefused, AfterChildRefused, LoOf, HiOf, InRange, FlattenKids;
    match t
    case Leaf(ents) => LeafDeleteOK(env, ents, lo, hi, k);
    case Branch(kids) =>
      var i := KidIndex(kids, k);
      var a, z := kids[..i], kids[i+1..];
      var child := kids[i].tree;
      ChildBounds(env, kids, k, h - 1, lo, hi);
      DeleteOK(env, child, h - 1, LoOf(a, [kids[i]], lo), HiOf(z, hi), k);
      RemoveMiddle(FlattenKids(a), Flatten(child), FlattenKids(z), k);
      match Delete(env, child, k)
      case Stable(c) => AfterChildOK(env, kids, i, c, h - 1, lo, hi, SeqRemove(Flatten(child), k));
      case Check(t') => RebalanceOK(env, kids, i, t', h - 1, lo, hi);
  }

  lemma {:induction false} ToMapOfRemove(ps: seq<Pair>, k: Key)
    requires Sorted(ps)
    ensures ToMap(SeqRemove(ps, k)) == ToMap(ps) - {k}
  {
    if ps != [] {
      if ps[0].key == k {
        LessIrreflexive(k);
        ToMapHas(ps[1..], k);
      } else {
        ToMapOfRemove(ps[1..], k);
      }
    }
  }

  /** A delete removes exactly the key, or reports that it is absent, and leaves a well-formed tree. */
  lemma DeleteRefinesMap(env: Env, db: Db, k: Key)
    requires env.Valid() && DbOK(env, db)
    ensures match DeleteDb(env, db, k)
            case Deleted(db') =>
              && DbOK(env, db') && Contents(db') == SeqRemove(Contents(db), k)
              && k in ToMap(Contents(db)) && ToMap(Contents(db')) == ToMap(Contents(db)) - {k}
            case NotFound => k !in ToMap(Contents(db))
            case DelFull => true
    ensures DeleteDb(env, db, k).DelFull? <==> db.Root? && k in ToMap(Contents(db)) && DeleteRefused(env, db.tree, k)
  {
    hide TreeOK, DeleteRefused, RootAfter, UnderOK, SeqRemove, Delete;
    if db.Root? {
      LessTotal([], k);
      TreeContents(env, db.tree, db.depth, [], None);
      GetFinds(env, db.tree, db.depth, [], None, k);
      ToMapOfRemove(Contents(db), k);
      DeleteOK(env, db.tree, db.depth, [], None, k);
      match Delete(env, db.tree, k)
      case Check(t) => RootAfterOK(env, t, db.depth);
      case Stable(Split(l, s, r)) => NewRootOK(env, l, s, r, db.depth);
      case Stable(_) =>
    }
  }

  lemma RootAfterOK(env: Env, t: Tree, depth: nat)
    requires env.Valid() && UnderOK(env, t, depth, [], None)
    ensures DbOK(env, RootAfter(t, depth)) && Contents(RootAfter(t, depth)) == Flatten(t)
  {
    if t.Branch? && |t.kids| == 1 {
      assert t.kids == [t.kids[0]];
      FlattenKidsOne(t.kids[0]);
    }
  }
}
