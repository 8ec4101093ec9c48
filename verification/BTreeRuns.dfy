/** Runs of puts and deletes: what the database then holds, sizes with which nothing is ever refused,
    and a put that is. */
module BTreeRuns {
  import opened Keys
  import opened SplitPoint
  import opened BTree
  import opened BTreePut
  import opened BTreeDelete

  // ---- Sizes that no page refuses ------------------------------------------------------------

  const SAFE := 192

  /** Small enough for every half that a count can leave, or large enough to have the split point searched for. */
  predicate SafeSize(env: Env, n: nat)
    requires env.Valid()
  {
    n <= SAFE || n > env.PMax() / 16
  }

  predicate SafeKey(env: Env, k: Key)
    requires env.Valid()
  {
    KeyOK(k) && SafeSize(env, BranchSize(k))
  }

  /** All keys and separators are safe; no page below the top one is empty. */
  predicate SafeTree(env: Env, t: Tree)
    requires env.Valid()
    decreases t, 0
  {
    match t
    case Leaf(ents) => SafeEntries(env, ents)
    case Branch(kids) => SafeKids(env, kids)
  }

  predicate SafeEntries(env: Env, ents: seq<Entry>)
    requires env.Valid()
  {
    forall i :: 0 <= i < |ents| ==> SafeKey(env, ents[i].key)
  }

  predicate SafeKids(env: Env, kids: seq<Kid>)
    requires env.Valid()
    decreases kids, 1
  {
    && (forall i :: 0 < i < |kids| ==> SafeKey(env, kids[i].sep))
    && (forall i :: 0 <= i < |kids| ==> Count(kids[i].tree) > 0 && SafeTree(env, kids[i].tree))
  }

  predicate SafeChange(env: Env, c: Change)
    requires env.Valid()
  {
    match c
    case Full => true
    case Fits(t) => SafeTree(env, t) && Count(t) > 0
    case Split(l, s, r) => SafeTree(env, l) && SafeTree(env, r) && SafeKey(env, s) && Count(l) > 0 && Count(r) > 0
  }

  predicate SafeRemoval(env: Env, r: Removal)
    requires env.Valid()
  {
    match r
    case Stable(c) => SafeChange(env, c)
    case Check(t) => SafeTree(env, t)
  }

  // ---- They stay safe ------------------------------------------------------------------------

  lemma SafeSplitLeaf(env: Env, ents: seq<Entry>, newindx: nat)
    requires env.Valid() && newindx < |ents| && SafeEntries(env, ents)
    ensures SafeChange(env, SplitLeaf(env, ents, newindx))
  {
    hide SafeKey, SplitIndex, Sum, RightUsed, NodesFit;
  }

  lemma SafePlaceLeaf(env: Env, ents: seq<Entry>, i: nat, e: Entry)
    requires env.Valid() && i <= |ents| && SafeEntries(env, ents) && SafeKey(env, e.key)
    ensures SafeChange(env, PlaceLeaf(env, ents, i, e))
  {
    hide SafeKey, Sum, SplitLeaf;
    SafeSplitLeaf(env, ents[..i] + [e] + ents[i..], i);
  }

  lemma SafeLeafPut(env: Env, ents: seq<Entry>, k: Key, v: seq<byte>, dirty: bool)
    requires env.Valid() && SafeEntries(env, ents) && SafeKey(env, k)
    ensures SafeChange(env, LeafPut(env, ents, k, v, dirty))
  {
    hide SafeKey, Pos, PlaceLeaf, Sum;
    var i := Pos(Pairs(ents), k);
    var e := NewEntry(env, k, v);
    if i < |ents| && ents[i].key == k {
      SafePlaceLeaf(env, ents[..i] + ents[i+1..], i, e);
      assert SafeEntries(env, ents[i := Entry(e.key, e.val, ents[i].ovpages)]);
    } else {
      assert i <= |ents|;
      SafePlaceLeaf(env, ents, i, e);
    }
  }

  lemma SafeSplitBranch(env: Env, kids: seq<Kid>, newindx: nat)
    requires env.Valid() && newindx < |kids| && SafeKids(env, kids)
    ensures SafeChange(env, SplitBranch(env, kids, newindx))
  {
    hide SafeKey, SafeTree, SplitIndex, Sum, RightUsed, NodesFit, Count;
    var c := SplitBranch(env, kids, newindx);
    if c.Split? {
      var s := |c.left.kids|;
      SafeSlices(env, kids, s);
      SafePages(env, c.left.kids);
      SafePages(env, c.right.kids);
    }
  }

  lemma SafeSlices(env: Env, kids: seq<Kid>, s: nat)
    requires env.Valid() && 0 < s < |kids| && SafeKids(env, kids)
    ensures SafeKids(env, kids[..s]) && SafeKids(env, [Kid([], kids[s].tree)] + kids[s+1..]) && SafeKey(env, kids[s].sep)
  {
    hide SafeKey, SafeTree, Count;
  }

  lemma SafePages(env: Env, kids: seq<Kid>)
    requires env.Valid() && SafeKids(env, kids) && kids != []
    ensures SafeTree(env, Branch(kids)) && Count(Branch(kids)) > 0
  {
    hide SafeKids;
  }

  lemma SafeExchanged(env: Env, kids: seq<Kid>, i: nat, t: Tree)
    requires env.Valid() && SafeKids(env, kids) && i < |kids| && SafeTree(env, t) && Count(t) > 0
    ensures SafeKids(env, kids[i := Kid(kids[i].sep, t)])
  {
    hide SafeKey, SafeTree, Count;
  }

  lemma SafeInserted(env: Env, kids: seq<Kid>, j: nat, k: Kid)
    requires env.Valid() && SafeKids(env, kids) && 1 <= j <= |kids|
    requires SafeKey(env, k.sep) && SafeTree(env, k.tree) && Count(k.tree) > 0
    ensures SafeKids(env, kids[..j] + [k] + kids[j..])
  {
    hide SafeKey, SafeTree, Count;
  }

  lemma SafeAfterChild(env: Env, kids: seq<Kid>, i: nat, c: Change)
    requires env.Valid() && SafeKids(env, kids) && i < |kids| && SafeChange(env, c)
    ensures SafeChange(env, AfterChild(env, kids, i, c))
  {
    hide SafeKey, SafeKids, SplitBranch, Sum, Count;
    match c
    case Full =>
    case Fits(t) =>
      SafeExchanged(env, kids, i, t);
      SafePages(env, kids[i := Kid(kids[i].sep, t)]);
    case Split(l, s, r) =>
      var kids' := kids[i := Kid(kids[i].sep, l)];
      SafeExchanged(env, kids, i, l);
      SafeInserted(env, kids', i + 1, Kid(s, r));
      var all := kids'[..i+1] + [Kid(s, r)] + kids'[i+1..];
      SafeSplitBranch(env, all, i + 1);
      SafePages(env, all);
  }

  lemma SafeAt(env: Env, kids: seq<Kid>, i: nat)
    requires env.Valid() && SafeKids(env, kids) && i < |kids|
    ensures SafeTree(env, kids[i].tree) && Count(kids[i].tree) > 0 && (i > 0 ==> SafeKey(env, kids[i].sep))
  {
    hide SafeTree, SafeKey, Count;
  }

  lemma {:induction false} PutSafe(env: Env, t: Tree, k: Key, v: seq<byte>, dirty: bool)
    requires env.Valid() && SafeTree(env, t) && SafeKey(env, k)
    ensures SafeChange(env, Put(env, t, k, v, dirty))
    decreases t
  {
    hide SafeKey, SafeKids, SafeEntries, KidIndex, LeafPut, AfterChild;
    match t
    case Leaf(ents) => SafeLeafPut(env, ents, k, v, dirty);
    case Branch(kids) =>
      if kids != [] {
        var i := KidIndex(kids, k);
        assert i < |kids|;
        SafeAt(env, kids, i);
        PutSafe(env, kids[i].tree, k, v, dirty);
        SafeAfterChild(env, kids, i, Put(env, kids[i].tree, k, v, dirty));
      }
  }

  lemma {:induction false} SafeLowest(env: Env, t: Tree)
    requires env.Valid() && SafeTree(env, t) && Count(t) > 0
    ensures SafeKey(env, Lowest(t))
    decreases t
  {
    hide SafeKey;
    if t.Branch? { SafeLowest(env, t.kids[0].tree); }
  }

  /** A page's nodes appended to another page's, the first one with the lowest key below it. */
  lemma SafeJoinedKids(env: Env, l: seq<Kid>, r: seq<Kid>)
    requires env.Valid() && SafeKids(env, l) && SafeKids(env, r) && r != []
    ensures SafeKids(env, l + ([Kid(Lowest(r[0].tree), r[0].tree)] + r[1..]))
    ensures SafeKids(env, l + [Kid(Lowest(r[0].tree), r[0].tree)])
  {
    SafeAt(env, r, 0);
    SafeLowest(env, r[0].tree);
    hide SafeKey, SafeTree, Count, Lowest;
  }

  predicate SafeShift(env: Env, s: Shift)
    requires env.Valid()
  {
    s.Shifted? ==> SafeChange(env, Split(s.left, s.sep, s.right))
  }

  lemma SafeMoveLeft(env: Env, l: Tree, r: Tree)
    requires env.Valid() && SafeTree(env, l) && SafeTree(env, r)
    ensures SafeShift(env, MoveLeft(env, l, r))
  {
    hide SafeKey, SafeKids, Used, Lowest, SafeEntries;
    if l.Leaf? && r.Leaf? && |r.ents| > 1 {
      SafeMovedEntries(env, l.ents, r.ents);
    } else if l.Branch? && r.Branch? && |r.kids| > 1 {
      SafeJoinedKids(env, l.kids, r.kids);
      SafeMovedKids(env, r.kids);
    }
  }

  lemma SafeMovedEntries(env: Env, l: seq<Entry>, r: seq<Entry>)
    requires env.Valid() && SafeEntries(env, l) && SafeEntries(env, r)
    ensures SafeEntries(env, l + r)
    ensures r != [] ==> SafeEntries(env, l + [r[0]]) && SafeEntries(env, r[1..])
    ensures l != [] ==> SafeEntries(env, l[..|l|-1]) && SafeEntries(env, [l[|l|-1]] + r) && SafeKey(env, l[|l|-1].key)
    ensures |r| > 1 ==> SafeKey(env, r[1].key)
  {
    hide SafeKey;
  }

  lemma SafeMovedKids(env: Env, r: seq<Kid>)
    requires env.Valid() && SafeKids(env, r) && |r| > 1
    ensures SafeKids(env, [Kid([], r[1].tree)] + r[2..]) && SafeKey(env, r[1].sep)
    ensures SafeKids(env, r[..|r|-1]) && SafeKey(env, r[|r|-1].sep)
  {
    hide SafeKey, SafeTree, Count;
  }

  lemma SafePutFront(env: Env, moved: Kid, r: seq<Kid>)
    requires env.Valid() && SafeKids(env, r) && r != [] && SafeTree(env, moved.tree) && Count(moved.tree) > 0
    ensures SafeKids(env, [Kid([], moved.tree)] + ([Kid(Lowest(r[0].tree), r[0].tree)] + r[1..]))
  {
    SafeAt(env, r, 0);
    SafeLowest(env, r[0].tree);
    hide SafeKey, SafeTree, Count, Lowest;
  }

  lemma SafeMoveRight(env: Env, l: Tree, r: Tree)
    requires env.Valid() && SafeTree(env, l) && SafeTree(env, r)
    ensures SafeShift(env, MoveRight(env, l, r))
  {
    hide SafeKey, SafeKids, Used, Lowest, SafeEntries, BranchUsed;
    if l.Leaf? && r.Leaf? && |l.ents| > 1 {
      SafeMovedEntries(env, l.ents, r.ents);
    } else if l.Branch? && r.Branch? && |l.kids| > 1 && r.kids != [] {
      var n := |l.kids| - 1;
      SafeMovedKids(env, l.kids);
      SafeAt(env, l.kids, n);
      SafePutFront(env, l.kids[n], r.kids);
    }
  }

  lemma SafeUpdateKey(env: Env, kids: seq<Kid>, j: nat, sep: Key)
    requires env.Valid() && SafeKids(env, kids) && j < |kids| && SafeKey(env, sep)
    ensures SafeChange(env, UpdateKey(env, kids, j, sep))
  {
    var all := kids[j := Kid(sep, kids[j].tree)];
    assert SafeKids(env, all) by { hide SafeKey, SafeTree, Count; }
    SafeSplitBranch(env, all, j);
    SafePages(env, all);
  }

  lemma SafeAfterMove(env: Env, kids: seq<Kid>, j: nat, s: Shift)
    requires env.Valid() && SafeKids(env, kids) && j + 1 < |kids| && SafeShift(env, s)
    ensures SafeRemoval(env, AfterMove(env, kids, j, s))
  {
    hide SafeKey, SafeKids, UpdateKey, Count, SafeTree;
    if s.Shifted? {
      SafeExchanged(env, kids, j, s.left);
      var kids1 := kids[j := Kid(kids[j].sep, s.left)];
      SafeExchanged(env, kids1, j + 1, s.right);
      var kids2 := kids1[j + 1 := Kid(kids[j+1].sep, s.right)];
      SafeUpdateKey(env, kids2, j + 1, s.sep);
    }
  }

  lemma SafeMerge(env: Env, kids: seq<Kid>, j: nat, l: Tree, r: Tree)
    requires env.Valid() && SafeKids(env, kids) && j + 1 < |kids| && SafeTree(env, l) && SafeTree(env, r)
    requires l.Leaf? == r.Leaf? && Count(l) + Count(r) > 0 && (r.Branch? ==> r.kids != [])
    ensures SafeRemoval(env, Merge(env, kids, j, l, r))
  {
    var m := Joined(l, r);
    SafeJoined(env, l, r);
    assert SafeKids(env, kids[..j] + [Kid(kids[j].sep, m)] + kids[j+2..]) by { hide SafeKey, SafeTree, Count, Joined; }
  }

  lemma SafeJoined(env: Env, l: Tree, r: Tree)
    requires env.Valid() && SafeTree(env, l) && SafeTree(env, r)
    requires l.Leaf? == r.Leaf? && Count(l) + Count(r) > 0 && (r.Branch? ==> r.kids != [])
    ensures SafeTree(env, Joined(l, r)) && Count(Joined(l, r)) > 0
  {
    hide SafeKey, SafeKids, Lowest, SafeEntries;
    if l.Leaf? { SafeMovedEntries(env, l.ents, r.ents); } else { SafeJoinedKids(env, l.kids, r.kids); }
  }

  /** What rebalancing works on: a child that shrank, of the same kind as its neighbours. */
  predicate Rebalancing(kids: seq<Kid>, i: nat, t: Tree) {
    && i < |kids| && |kids| >= 2 && (t.Branch? ==> t.kids != [])
    && forall j :: 0 <= j < |kids| ==> kids[j].tree.Leaf? == t.Leaf?
  }

  lemma SafeRebalance(env: Env, kids: seq<Kid>, i: nat, t: Tree)
    requires env.Valid() && SafeKids(env, kids) && SafeTree(env, t) && Rebalancing(kids, i, t)
    ensures SafeRemoval(env, Rebalance(env, kids, i, t))
  {
    hide SafeKey, SafeKids, SafeTree, PageFill, Merge, AfterMove, MoveLeft, MoveRight;
    var nb := if i == 0 then 1 else i - 1;
    SafeAt(env, kids, nb);
    if Filled(env, t) {
      SafeExchanged(env, kids, i, t);
      SafePages(env, kids[i := Kid(kids[i].sep, t)]);
    } else if i == 0 {
      SafeMoveLeft(env, t, kids[1].tree);
      SafeAfterMove(env, kids, 0, MoveLeft(env, t, kids[1].tree));
      SafeMerge(env, kids, 0, t, kids[1].tree);
    } else {
      SafeMoveRight(env, kids[i-1].tree, t);
      SafeAfterMove(env, kids, i - 1, MoveRight(env, kids[i-1].tree, t));
      SafeMerge(env, kids, i - 1, kids[i-1].tree, t);
    }
  }

  lemma {:induction false} SameHeights(env: Env, kids: seq<Kid>, h: nat, lo: Key, hi: Option<Key>)
    requires env.Valid() && kids != [] && KidsOK(env, kids, h, lo, hi)
    ensures forall j :: 0 <= j < |kids| ==> kids[j].tree.Leaf? == (h == 0)
    decreases kids
  {
    if |kids| > 1 {
      SameHeights(env, kids[1..], h, kids[1].sep, hi);
      assert forall j :: 1 <= j < |kids| ==> kids[j] == kids[1..][j-1];
    }
  }

  lemma {:induction false} DeleteSafe(env: Env, t: Tree, h: nat, lo: Key, hi: Option<Key>, k: Key)
    requires env.Valid() && TreeOK(env, t, h, lo, hi) && InRange(k, lo, hi) && SafeTree(env, t)
    ensures SafeRemoval(env, Delete(env, t, k))
    decreases h
  {
    hide SafeKey, SafeKids, SafeEntries, KidsOK, Rebalance, AfterChild, Less, LeafOK, FlattenKids, AllBelow, AllAbove,
         SeqRemove, ChangeOK;
    match t
    case Leaf(ents) => SafeLeafDelete(env, ents, k);
    case Branch(kids) =>
      var i := KidIndex(kids, k);
      var child := kids[i].tree;
      ChildBounds(env, kids, k, h - 1, lo, hi);
      var lo', hi' := LoOf(kids[..i], [kids[i]], lo), HiOf(kids[i+1..], hi);
      SafeAt(env, kids, i);
      DeleteSafe(env, child, h - 1, lo', hi', k);
      DeleteOK(env, child, h - 1, lo', hi', k);
      SameHeights(env, kids, h - 1, lo, hi);
      match Delete(env, child, k)
      case Stable(c) => SafeAfterChild(env, kids, i, c);
      case Check(t') => SafeRebalance(env, kids, i, t');
  }

  lemma SafeLeafDelete(env: Env, ents: seq<Entry>, k: Key)
    requires env.Valid() && SafeEntries(env, ents) && ents != []
    ensures SafeRemoval(env, Delete(env, Leaf(ents), k))
  {
    hide SafeKey, Pos;
  }

  // ---- Safe sizes are never refused ----------------------------------------------------------

  lemma LeafNotRefused(env: Env, prior: seq<Entry>, i: nat, e: Entry)
    requires env.Valid() && i <= |prior| && EntriesOK(env, prior) && EntryOK(env, e) && LeafUsed(prior) <= env.PMax()
    requires SafeSize(env, LeafSize(e))
    ensures !LeafRefused(env, prior, i, e)
  {
    hide Sum, Even, EntryOK, HalvesFit;
    if LeafRefused(env, prior, i, e) {
      var all := prior[..i] + [e] + prior[i..];
      var xs := LeafSizes(all);
      LeafSplittable(env, prior, i, e);
      forall n | 0 <= n < |all| ensures 12 <= xs[n] <= env.PMax() / 2 && xs[n] % 2 == 0 {
        EntryBounds(env, all[n]);
      }
      OtherSideBounds(|prior|, i);
      CountedHalvesFit(xs, |prior|, i, xs[i], env.PMax());
    }
  }

  /** Every separator behind slot 0 has a key. */
  predicate SepsFilled(kids: seq<Kid>) {
    forall i :: 0 < i < |kids| ==> kids[i].sep != []
  }

  lemma SafeSeps(env: Env, kids: seq<Kid>)
    requires env.Valid() && SafeKids(env, kids)
    ensures SepsFilled(kids)
  {
    hide SafeTree, Count;
  }

  lemma CountedBranchOK(env: Env, all: seq<Kid>, j: nat)
    requires env.Valid() && 1 <= j < |all| && SepsOK(all) && SepsFilled(all) && all[0].sep == []
    requires BranchUsed(all) - BranchSize(all[j].sep) <= env.PMax() < BranchUsed(all)
    requires SafeSize(env, BranchSize(all[j].sep))
    ensures !CountedOverfull(BranchSizes(all), j, false, env.PMax())
  {
    hide Sum, HalvesFit;
    var xs := BranchSizes(all);
    var nsize := xs[j];
    if CountedOverfull(xs, j, false, env.PMax()) {
      OtherSideBounds(|all| - 1, j);
      hide OtherSide;
      CountedBranchFits(xs, |all| - 1, j, nsize, 522, env.PMax());
    }
  }

  lemma KidNotRefused(env: Env, kids: seq<Kid>, j: nat, k: Kid)
    requires env.Valid() && 1 <= j <= |kids| && BranchPageOK(env, kids) && SepsFilled(kids) && SafeKey(env, k.sep)
    ensures !KidRefused(env, kids, j, k)
  {
    hide Sum, CountedOverfull, Even;
    if KidRefused(env, kids, j, k) {
      InsertedKidSizes(kids, j, k);
      CountedBranchOK(env, kids[..j] + [k] + kids[j..], j);
    }
  }

  lemma UpdatedSizes(kids: seq<Kid>, j: nat, sep: Key)
    requires 1 <= j < |kids|
    ensures var all := kids[j := Kid(sep, kids[j].tree)];
            && BranchUsed(all) == BranchUsed(kids) + Even(|sep|) - Even(|kids[j].sep|)
            && BranchUsed(all) - BranchSize(sep) == BranchUsed(kids) - BranchSize(kids[j].sep)
  {
    hide Sum;
    var all := kids[j := Kid(sep, kids[j].tree)];
    var prior := kids[..j] + kids[j+1..];
    assert prior[..j] + [kids[j]] + prior[j..] == kids;
    assert prior[..j] + [all[j]] + prior[j..] == all;
    InsertedKidSizes(prior, j, kids[j]);
    InsertedKidSizes(prior, j, all[j]);
  }

  lemma UpdateNotRefused(env: Env, kids: seq<Kid>, j: nat, sep: Key)
    requires env.Valid() && 1 <= j < |kids| && BranchPageOK(env, kids) && SepsFilled(kids) && SafeKey(env, sep)
    ensures !UpdateRefused(env, kids, j, sep)
  {
    hide Sum, CountedOverfull, SafeSize;
    if UpdateRefused(env, kids, j, sep) {
      var all := kids[j := Kid(sep, kids[j].tree)];
      UpdatedSizes(kids, j, sep);
      CountedBranchOK(env, all, j);
    }
  }

  lemma AfterChildNotRefused(env: Env, kids: seq<Kid>, i: nat, c: Change)
    requires env.Valid() && i < |kids| && BranchPageOK(env, kids) && SafeKids(env, kids) && SafeChange(env, c)
    ensures !AfterChildRefused(env, kids, i, c)
  {
    hide Sum, KidRefused, SafeKids, SafeKey, SafeTree, Count, BranchPageOK;
    if c.Split? {
      SafeSeps(env, kids);
      SamePage(env, kids, i, c.left);
      KidNotRefused(env, kids[i := Kid(kids[i].sep, c.left)], i + 1, Kid(c.sep, c.right));
    }
  }

  lemma LeafPutNotRefused(env: Env, ents: seq<Entry>, lo: Key, hi: Option<Key>, k: Key, v: seq<byte>, dirty: bool)
    requires env.Valid() && LeafOK(env, ents, lo, hi) && KeyOK(k) && SafeSize(env, LeafSize(NewEntry(env, k, v)))
    ensures !LeafPutRefused(env, ents, k, v, dirty)
  {
    hide Sum, LeafRefused, EntryOK, Sorted, AllInRange, LeafSize;
    var i := Pos(Pairs(ents), k);
    NewEntryOK(env, k, v);
    if i < |ents| && ents[i].key == k {
      RemovedSizes(ents, i);
      LeafNotRefused(env, ents[..i] + ents[i+1..], i, NewEntry(env, k, v));
    } else {
      LeafNotRefused(env, ents, i, NewEntry(env, k, v));
    }
  }

  lemma {:induction false} PutNotRefused(env: Env, t: Tree, h: nat, lo: Key, hi: Option<Key>, k: Key, v: seq<byte>,
                                         dirty: bool)
    requires env.Valid() && TreeOK(env, t, h, lo, hi) && InRange(k, lo, hi)
    requires SafeTree(env, t) && SafeKey(env, k) && SafeSize(env, LeafSize(NewEntry(env, k, v)))
    ensures !PutRefused(env, t, k, v, dirty)
    decreases h
  {
    hide SafeKids, SafeEntries, KidsOK, Less, LeafOK, FlattenKids, AllBelow, AllAbove, LeafPutRefused,
      AfterChildRefused, LeafSize, BranchPageOK, BranchSize;
    match t
    case Leaf(ents) => LeafPutNotRefused(env, ents, lo, hi, k, v, dirty);
    case Branch(kids) =>
      var i := KidIndex(kids, k);
      ChildBounds(env, kids, k, h - 1, lo, hi);
      SafeAt(env, kids, i);
      PutNotRefused(env, kids[i].tree, h - 1, LoOf(kids[..i], [kids[i]], lo), HiOf(kids[i+1..], hi), k, v, dirty);
      PutSafe(env, kids[i].tree, k, v, dirty);
      AfterChildNotRefused(env, kids, i, Put(env, kids[i].tree, k, v, dirty));
  }

  lemma RebalanceNotRefused(env: Env, kids: seq<Kid>, i: nat, t: Tree)
    requires env.Valid() && BranchPageOK(env, kids) && SafeKids(env, kids) && SafeTree(env, t) && i < |kids|
    ensures !RebalanceRefused(env, kids, i, t)
  {
    hide SafeKey, SafeKids, SafeTree, PageFill, MoveLeft, MoveRight, BranchPageOK, Filled, CanGive, UpdateRefused, Count;
    if |kids| >= 2 {
      var nb := if i == 0 then 1 else i - 1;
      SafeAt(env, kids, nb);
      SafeSeps(env, kids);
      if i == 0 {
        SafeMoveLeft(env, t, kids[1].tree);
        var s := MoveLeft(env, t, kids[1].tree);
        if s.Shifted? { UpdateNotRefused(env, kids, 1, s.sep); }
      } else {
        SafeMoveRight(env, kids[i-1].tree, t);
        var s := MoveRight(env, kids[i-1].tree, t);
        if s.Shifted? { UpdateNotRefused(env, kids, i, s.sep); }
      }
    }
  }

  lemma {:induction false} DeleteNotRefused(env: Env, t: Tree, h: nat, lo: Key, hi: Option<Key>, k: Key)
    requires env.Valid() && TreeOK(env, t, h, lo, hi) && InRange(k, lo, hi) && SafeTree(env, t)
    ensures !DeleteRefused(env, t, k)
    decreases h
  {
    hide SafeKids, SafeEntries, KidsOK, Less, LeafOK, FlattenKids, AllBelow, AllAbove, RebalanceRefused,
      AfterChildRefused, BranchPageOK;
    match t
    case Leaf(_) =>
    case Branch(kids) =>
      var i := KidIndex(kids, k);
      var lo', hi' := LoOf(kids[..i], [kids[i]], lo), HiOf(kids[i+1..], hi);
      ChildBounds(env, kids, k, h - 1, lo, hi);
      SafeAt(env, kids, i);
      DeleteNotRefused(env, kids[i].tree, h - 1, lo', hi', k);
      DeleteSafe(env, kids[i].tree, h - 1, lo', hi', k);
      match Delete(env, kids[i].tree, k)
      case Stable(c) => AfterChildNotRefused(env, kids, i, c);
      case Check(t') => RebalanceNotRefused(env, kids, i, t');
  }

  // ---- Runs ----------------------------------------------------------------------------------

  datatype Op = PutOp(key: Key, val: seq<byte>, dirty: bool) | DeleteOp(key: Key)

  /** One call; none when it is refused. A bad key or an absent one changes nothing. */
  function Step(env: Env, db: Db, op: Op): Option<Db>
    requires env.Valid()
  {
    match op
    case PutOp(k, v, dirty) =>
      (match PutDb(env, db, k, v, dirty)
       case Ok(db') => Some(db')
       case BadValSize => Some(db)
       case PageFull => None)
    case DeleteOp(k) =>
      match DeleteDb(env, db, k)
      case Deleted(db') => Some(db')
      case NotFound => Some(db)
      case DelFull => None
  }

  function After(env: Env, ops: seq<Op>): Option<Db>
    requires env.Valid()
  {
    if ops == [] then Some(Empty)
    else
      match After(env, ops[..|ops|-1])
      case None => None
      case Some(db) => Step(env, db, ops[|ops|-1])
  }

  function MapStep(m: map<Key, seq<byte>>, op: Op): map<Key, seq<byte>> {
    match op
    case PutOp(k, v, _) => if KeyOK(k) then m[k := v] else m
    case DeleteOp(k) => m - {k}
  }

  function MapAfter(ops: seq<Op>): map<Key, seq<byte>> {
    if ops == [] then map[] else MapStep(MapAfter(ops[..|ops|-1]), ops[|ops|-1])
  }

  predicate SafeOp(env: Env, op: Op)
    requires env.Valid()
  {
    op.PutOp? && KeyOK(op.key) ==>
      SafeSize(env, BranchSize(op.key)) && SafeSize(env, LeafSize(NewEntry(env, op.key, op.val)))
  }

  predicate SafeDb(env: Env, db: Db)
    requires env.Valid()
  {
    db.Root? ==> SafeTree(env, db.tree)
  }

  lemma StepMap(env: Env, db: Db, op: Op)
    requires env.Valid() && DbOK(env, db)
    ensures var r := Step(env, db, op);
            r.Some? ==> DbOK(env, r.value) && ToMap(Contents(r.value)) == MapStep(ToMap(Contents(db)), op)
  {
    hide TreeOK, PutDb, DeleteDb, ToMap, Contents, SeqPut, SeqRemove, PutRefused, DeleteRefused;
    match op
    case PutOp(k, v, dirty) => PutRefinesMap(env, db, k, v, dirty);
    case DeleteOp(k) => DeleteRefinesMap(env, db, k);
  }

  /** A run that is not refused holds exactly what the same puts and deletes leave in a map. */
  lemma {:induction false} RunIsMap(env: Env, ops: seq<Op>)
    requires env.Valid() && After(env, ops).Some?
    ensures var db := After(env, ops).value; DbOK(env, db) && ToMap(Contents(db)) == MapAfter(ops)
    decreases |ops|
  {
    hide TreeOK, Step, MapStep;
    if ops != [] {
      RunIsMap(env, ops[..|ops|-1]);
      StepMap(env, After(env, ops[..|ops|-1]).value, ops[|ops|-1]);
    }
  }

  lemma PutStepSafe(env: Env, db: Db, k: Key, v: seq<byte>, dirty: bool)
    requires env.Valid() && DbOK(env, db) && SafeDb(env, db) && SafeOp(env, PutOp(k, v, dirty))
    ensures var r := Step(env, db, PutOp(k, v, dirty)); r.Some? && SafeDb(env, r.value)
  {
    hide TreeOK, Less, LeafSize, BranchSize, Put, PutRefused;
    PutRefinesMap(env, db, k, v, dirty);
    if KeyOK(k) && db.Root? {
      EmptyLowest(k);
      PutNotRefused(env, db.tree, db.depth, [], None, k, v, dirty);
      PutSafe(env, db.tree, k, v, dirty);
      SafeRoot(env, Put(env, db.tree, k, v, dirty));
    }
  }

  lemma SafeRoot(env: Env, c: Change)
    requires env.Valid() && SafeChange(env, c)
    ensures c.Split? ==> SafeTree(env, Branch([Kid([], c.left), Kid(c.sep, c.right)]))
  {
    hide SafeKey, Count;
    if c.Split? { SafePages(env, [Kid([], c.left), Kid(c.sep, c.right)]); }
  }

  lemma SafeRootAfter(env: Env, t: Tree, depth: nat)
    requires env.Valid() && SafeTree(env, t)
    ensures SafeDb(env, RootAfter(t, depth))
  {
    if t.Branch? && |t.kids| == 1 { SafeAt(env, t.kids, 0); }
  }

  lemma EmptyLowest(k: Key)
    ensures AtMost([], k)
  {
  }

  lemma DeleteStepSafe(env: Env, db: Db, k: Key)
    requires env.Valid() && DbOK(env, db) && SafeDb(env, db)
    ensures var r := Step(env, db, DeleteOp(k)); r.Some? && SafeDb(env, r.value)
  {
    hide TreeOK, Less, Delete, DeleteRefused, SafeKey, Get, SafeTree, RootAfter;
    DeleteRefinesMap(env, db, k);
    if db.Root? {
      EmptyLowest(k);
      DeleteNotRefused(env, db.tree, db.depth, [], None, k);
      DeleteSafe(env, db.tree, db.depth, [], None, k);
      match Delete(env, db.tree, k)
      case Stable(c) => SafeRoot(env, c);
      case Check(t) => SafeRootAfter(env, t, db.depth);
    }
  }

  /** No put and no delete is ever refused in a run whose keys and entries have safe sizes. */
  lemma {:induction false} SafeRunSucceeds(env: Env, ops: seq<Op>)
    requires env.Valid() && forall i :: 0 <= i < |ops| ==> SafeOp(env, ops[i])
    ensures After(env, ops).Some? && SafeDb(env, After(env, ops).value)
    ensures ToMap(Contents(After(env, ops).value)) == MapAfter(ops)
    decreases |ops|
  {
    hide Step, SafeDb, SafeOp, ToMap, MapAfter, DbOK, Contents;
    if ops == [] {
      NothingSafe(env);
    } else {
      var before := ops[..|ops|-1];
      SafeRunSucceeds(env, before);
      RunIsMap(env, before);
      var db, op := After(env, before).value, ops[|ops|-1];
      match op
      case PutOp(k, v, dirty) => PutStepSafe(env, db, k, v, dirty);
      case DeleteOp(k) => DeleteStepSafe(env, db, k);
    }
    RunIsMap(env, ops);
  }

  lemma NothingSafe(env: Env)
    requires env.Valid()
    ensures SafeDb(env, Empty)
  {
  }

  /** Keys of up to 182 bytes are safe, and so are entries of up to 190 bytes with their header. */
  lemma ShortIsSafe(env: Env, op: Op)
    requires env.Valid() && (op.PutOp? ==> |op.key| <= 182 && NODESIZE + |op.key| + |op.val| <= 190)
    ensures SafeOp(env, op)
  {
  }
}
