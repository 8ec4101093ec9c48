/** What a transaction already owns it writes in place: with every page of the tree dirty, puts and deletes free nothing,
    and only pages that are merged away or added change which pages the tree has. */
module OwnPages {
  import opened Keys
  import opened SplitPoint
  import opened BTree
  import opened BTreePut
  import opened BTreeDelete
  import opened PageTree
  import opened PageTreeDelete

  /** Every page of the tree is dirty. */
  predicate Own(t: PTree, a: Alloc)
    decreases t, 0
  {
    match t
    case PLeaf(p, _) => p in a.dirty
    case PBranch(p, kids) => p in a.dirty && OwnKids(kids, a)
  }

  predicate OwnKids(kids: seq<PKid>, a: Alloc)
    decreases kids, 1
  {
    kids == [] || (Own(kids[0].tree, a) && OwnKids(kids[1..], a))
  }

  lemma {:induction false} OwnIs(t: PTree, a: Alloc)
    ensures Own(t, a) <==> forall p :: p in Pages(t) ==> p in a.dirty
    decreases t, 0
  {
    match t
    case PLeaf(_, _) =>
    case PBranch(_, kids) => OwnKidsIs(kids, a);
  }

  lemma {:induction false} OwnKidsIs(kids: seq<PKid>, a: Alloc)
    ensures OwnKids(kids, a) <==> forall p :: p in PagesKids(kids) ==> p in a.dirty
    decreases kids, 1
  {
    hide Own, Pages;
    if kids != [] {
      OwnIs(kids[0].tree, a);
      OwnKidsIs(kids[1..], a);
    }
  }

  lemma {:induction false} OwnKid(kids: seq<PKid>, i: nat, a: Alloc)
    requires i < |kids| && OwnKids(kids, a)
    ensures Own(kids[i].tree, a) && kids[i].tree.page in a.dirty
    decreases i
  {
    if i > 0 { OwnKid(kids[1..], i - 1, a); }
  }

  /** Nothing is given back; pages may be taken. */
  predicate OnlyTakes(a: Alloc, a': Alloc) {
    a'.freed == a.freed && a'.loose == a.loose && a.dirty <= a'.dirty
  }

  /** A put into pages that are all owned gives none back, and the page it starts from stays where it is. */
  lemma {:induction false} PutInPlace(env: Env, t: PTree, k: Key, v: seq<byte>, dirty: bool, a: Alloc)
    requires env.Valid() && Own(t, a)
    ensures var (c, a') := PutPages(env, t, k, v, dirty, a);
            OnlyTakes(a, a') && (c.PFits? ==> c.t.page == t.page) && (c.PSplit? ==> c.left.page == t.page)
    decreases t
  {
    hide BareKids, LeafPut, KidIndex, PlacePage, Own, OwnKids;
    OwnTop(t, a);
    match t
    case PLeaf(_, _) =>
    case PBranch(p, kids) =>
      if kids != [] {
        BareLength(kids);
        var i := KidIndex(BareKids(kids), k);
        KidInRange(BareKids(kids), k);
        OwnKid(kids, i, a);
        PutInPlace(env, kids[i].tree, k, v, dirty, a);
        var (c, a') := PutPages(env, kids[i].tree, k, v, dirty, a);
        AfterTakes(env, p, kids, i, c, a');
      }
  }

  lemma KidInRange(kids: seq<Kid>, k: Key)
    requires kids != []
    ensures KidIndex(kids, k) < |kids|
  {
  }

  lemma OwnTop(t: PTree, a: Alloc)
    requires Own(t, a)
    ensures t.page in a.dirty && (t.PBranch? ==> OwnKids(t.kids, a))
  {
  }

  lemma AfterTakes(env: Env, p: nat, kids: seq<PKid>, i: nat, c: PChange, a: Alloc)
    requires env.Valid() && i < |kids|
    ensures var (x, a') := AfterPage(env, p, kids, i, c, a);
            OnlyTakes(a, a') && (x.PFits? ==> x.t.page == p) && (x.PSplit? ==> x.left.page == p)
  {
    hide BareKids, SplitIndex, RightUsed, NodesFit, Sum, BranchSizes, BranchUsed;
  }

  /** Nothing is freed; a merged page may be kept for the next use. */
  predicate OnlyLoosens(a: Alloc, a': Alloc) { a'.freed == a.freed && a.dirty <= a'.dirty }

  /** A delete from pages that are all owned frees none. */
  lemma {:induction false} DeleteInPlace(env: Env, t: PTree, k: Key, a: Alloc)
    requires env.Valid() && Own(t, a)
    ensures var (r, a') := DeletePages(env, t, k, a); OnlyLoosens(a, a') && (r.PCheck? ==> r.t.page == t.page)
    decreases t
  {
    hide BareKids, KidIndex, AfterPage, RebalancePages, Own, OwnKids, Pos, Pairs;
    OwnTop(t, a);
    match t
    case PLeaf(_, _) =>
    case PBranch(p, kids) =>
      if kids != [] {
        BareLength(kids);
        var i := KidIndex(BareKids(kids), k);
        KidInRange(BareKids(kids), k);
        OwnKid(kids, i, a);
        DeleteInPlace(env, kids[i].tree, k, a);
        var (r, a') := DeletePages(env, kids[i].tree, k, a);
        match r
        case PStable(c) => AfterTakes(env, p, kids, i, c, a');
        case PCheck(t') =>
          if i > 0 { OwnKid(kids, i - 1, a); }
          if i + 1 < |kids| { OwnKid(kids, i + 1, a); }
          RebalanceInPlace(env, p, kids, i, t', a');
      }
  }

  lemma RebalanceInPlace(env: Env, p: nat, kids: seq<PKid>, i: nat, t: PTree, a: Alloc)
    requires env.Valid() && i < |kids| && t.page in a.dirty
    requires i > 0 ==> kids[i-1].tree.page in a.dirty
    requires i + 1 < |kids| ==> kids[i+1].tree.page in a.dirty
    ensures var (r, a') := RebalancePages(env, p, kids, i, t, a); OnlyLoosens(a, a') && (r.PCheck? ==> r.t.page == p)
  {
    hide Filled, CanGive, ShiftLeft, ShiftRight, MergePages, AfterShift, Bare;
    if |kids| >= 2 {
      var j := if i == 0 then 0 else i - 1;
      var l, r := if i == 0 then t else kids[i-1].tree, if i == 0 then kids[1].tree else t;
      MergeInPlace(env, p, kids, j, l, r, a);
      ShiftInPlace(env, l, r, a);
      ShiftedInPlace(env, p, kids, j, ShiftLeft(env, l, r, a).0, a);
      ShiftedInPlace(env, p, kids, j, ShiftRight(env, l, r, a).0, a);
    }
  }

  lemma ShiftInPlace(env: Env, l: PTree, r: PTree, a: Alloc)
    requires env.Valid() && l.page in a.dirty && r.page in a.dirty
    ensures ShiftLeft(env, l, r, a).1 == a && ShiftRight(env, l, r, a).1 == a
  {
    hide BareKids, LeafUsed, BranchUsed, LowestKey;
  }

  lemma ShiftedInPlace(env: Env, p: nat, kids: seq<PKid>, j: nat, s: PShift, a: Alloc)
    requires env.Valid() && j + 1 < |kids|
    ensures var (r, a') := AfterShift(env, p, kids, j, s, a); OnlyLoosens(a, a') && !r.PCheck?
  {
    hide BareKids, SplitIndex, RightUsed, NodesFit, Sum, BranchSizes, BranchUsed;
  }

  lemma MergeInPlace(env: Env, p: nat, kids: seq<PKid>, j: nat, l: PTree, r: PTree, a: Alloc)
    requires env.Valid() && j + 1 < |kids| && l.page in a.dirty && r.page in a.dirty
    ensures var (x, a') := MergePages(env, p, kids, j, l, r, a);
            && OnlyLoosens(a, a') && (x.PCheck? ==> x.t.page == p && a'.loose == a.loose + multiset{r.page} && a'.used == a.used)
  {
    hide Used, Bare, JoinedPage;
  }
}
